/**
 * What the literal-shrinking workers propose: over any run, a worker takes to the shared formula exactly the
 * literals whose local test succeeded; and a single worker, whose tests see the shared formula as it is, has every
 * proposal accepted.
 */
module ShrinkProposals {
  import opened ParallelShrink

  /** A step that tries literal `j` of the private copy. */
  predicate Tests(s: State, m: Move, w: nat, j: nat) {
    m.worker == w && w < |s.workers| && s.workers[w].phase == Local(j) && j < |s.workers[w].copy| && s.workers[w].copy[j] != FALSE
  }

  /** A step that takes a row for shrinking. */
  predicate Fetches(s: State, m: Move, w: nat) {
    m.worker == w && w < |s.workers| && s.workers[w].phase == Fetch &&
    s.workers[w].position < s.workers[w].end && s.workers[w].position < |s.head|
  }

  /** Some local test of literal `j` after step `f` and before step `i` succeeded. */
  ghost predicate Succeeded(states: seq<State>, moves: seq<Move>, w: nat, f: nat, i: nat, j: nat)
    requires |states| == |moves| + 1 && i <= |moves|
  {
    exists t: nat :: f < t < i && Tests(states[t], moves[t], w, j) && moves[t].stale
  }

  ghost predicate Tried(states: seq<State>, moves: seq<Move>, w: nat, f: nat, i: nat, j: nat)
    requires |states| == |moves| + 1 && i <= |moves|
  {
    exists t: nat :: f < t < i && Tests(states[t], moves[t], w, j)
  }

  /** From step `f` to state `i` worker `w` only tries literals. */
  ghost predicate SamePass(states: seq<State>, moves: seq<Move>, w: nat, f: nat, i: nat)
    requires |states| == |moves| + 1 && i <= |moves|
  {
    forall t: nat :: f < t < i && moves[t].worker == w ==> w < |states[t].workers| && states[t].workers[w].phase.Local?
  }

  /** The place the worker has reached in its row. */
  function Reached(k: Worker): nat {
    match k.phase
    case Local(j) => j
    case _ => |k.copy|
  }

  /** The private copy in the middle of a pass over `row`, when the literals of `tried` were tested, those of `hit` with success. */
  ghost predicate PassOk(k: Worker, row: Clause, hit: nat -> bool, tried: nat -> bool) {
    && (k.phase.Local? || k.phase.Lock?) && |k.copy| == |row| && Reached(k) <= |row|
    && (forall j: nat :: tried(j) ==> j < Reached(k))
    && (forall j: nat :: j < Reached(k) && row[j] != FALSE ==> tried(j))
    && (forall j: nat :: hit(j) ==> tried(j) && j < |row| && row[j] != FALSE)
    && (forall j: nat :: j < |row| ==> k.copy[j] == if hit(j) then FALSE else row[j])
    && (k.removed > 0 <==> exists j: nat :: hit(j))
  }

  ghost function Hits(states: seq<State>, moves: seq<Move>, w: nat, f: nat, i: nat): nat -> bool
    requires |states| == |moves| + 1 && i <= |moves|
  {
    (j: nat) => Succeeded(states, moves, w, f, i, j)
  }

  ghost function Trials(states: seq<State>, moves: seq<Move>, w: nat, f: nat, i: nat): nat -> bool
    requires |states| == |moves| + 1 && i <= |moves|
  {
    (j: nat) => Tried(states, moves, w, f, i, j)
  }

  ghost predicate Passing(states: seq<State>, moves: seq<Move>, w: nat, f: nat, i: nat, row: Clause)
    requires |states| == |moves| + 1 && f < i <= |moves|
  {
    w < |states[i].workers| &&
    PassOk(states[i].workers[w], row, Hits(states, moves, w, f, i), Trials(states, moves, w, f, i))
  }

  lemma PassOkSame(k: Worker, next: Worker, row: Clause, hit: nat -> bool, tried: nat -> bool, hit1: nat -> bool, tried1: nat -> bool)
    requires PassOk(k, row, hit, tried) && next.copy == k.copy && next.removed == k.removed
    requires next.phase == k.phase || (next.phase.Lock? && Reached(k) == |k.copy|)
    requires forall j: nat :: (hit1(j) <==> hit(j)) && (tried1(j) <==> tried(j))
    ensures PassOk(next, row, hit1, tried1)
  {
  }

  lemma PassOkTrial(k: Worker, next: Worker, row: Clause, hit: nat -> bool, tried: nat -> bool, hit1: nat -> bool, tried1: nat -> bool, ok: bool)
    requires PassOk(k, row, hit, tried) && k.phase.Local? && k.phase.j < |k.copy|
    requires next.phase == Local(k.phase.j + 1) && next.copy == (if ok then k.copy[k.phase.j := FALSE] else k.copy)
    requires next.removed == k.removed + (if ok then 1 else 0) && (ok ==> k.copy[k.phase.j] != FALSE)
    requires forall j: nat :: hit1(j) <==> hit(j) || (ok && j == k.phase.j)
    requires forall j: nat :: tried1(j) <==> tried(j) || (k.copy[k.phase.j] != FALSE && j == k.phase.j)
    ensures PassOk(next, row, hit1, tried1)
  {
    var at := k.phase.j;
    assert !tried(at) && !hit(at) && k.copy[at] == row[at];
    assert ok ==> hit1(at);
  }

  lemma PassHit(k: Worker, row: Clause, hit: nat -> bool, tried: nat -> bool)
    requires PassOk(k, row, hit, tried)
    ensures k.removed > 0 <==> exists j: nat :: hit(j)
  {
  }

  lemma RunStep(runs: Formula -> bool, states: seq<State>, moves: seq<Move>, i: nat)
    requires Run(runs, states, moves) && i < |moves|
    ensures Enabled(states[i], moves[i].worker) && RowReady(states[i], moves[i].worker)
    ensures states[i + 1] == Step(runs, states[i], moves[i])
  {
    hide Step, Enabled, RowReady;
  }

  /** Others leave the worker alone. */
  lemma Bystander(runs: Formula -> bool, s: State, m: Move, w: nat)
    requires Enabled(s, m.worker) && RowReady(s, m.worker) && m.worker != w && w < |s.workers|
    ensures |Step(runs, s, m).workers| == |s.workers| && Step(runs, s, m).workers[w] == s.workers[w]
  {
  }

  lemma FetchStep(runs: Formula -> bool, s: State, m: Move)
    requires Enabled(s, m.worker) && RowReady(s, m.worker) && Fetches(s, m, m.worker)
    ensures |Step(runs, s, m).workers| == |s.workers|
    ensures var k, next := s.workers[m.worker], Step(runs, s, m).workers[m.worker];
      next.phase == Local(0) && next.position == k.position && next.copy == s.head[k.position] && next.removed == 0
  {
  }

  /** A literal is tried. */
  lemma TrialStep(runs: Formula -> bool, s: State, m: Move)
    requires Enabled(s, m.worker) && RowReady(s, m.worker)
    requires var k := s.workers[m.worker]; k.phase.Local? && k.phase.j < |k.copy|
    ensures |Step(runs, s, m).workers| == |s.workers| && Step(runs, s, m).head == s.head
    ensures var k, next := s.workers[m.worker], Step(runs, s, m).workers[m.worker];
      var ok := Tests(s, m, m.worker, k.phase.j) && m.stale;
      next.phase == Local(k.phase.j + 1) && next.position == k.position && next.end == k.end &&
      next.copy == (if ok then k.copy[k.phase.j := FALSE] else k.copy) && next.removed == k.removed + (if ok then 1 else 0)
  {
  }

  /** All literals have been tried. */
  lemma PassEnd(runs: Formula -> bool, s: State, m: Move)
    requires Enabled(s, m.worker) && RowReady(s, m.worker)
    requires var k := s.workers[m.worker]; k.phase.Local? && k.phase.j == |k.copy|
    ensures |Step(runs, s, m).workers| == |s.workers| && Step(runs, s, m).head == s.head
    ensures var k, next := s.workers[m.worker], Step(runs, s, m).workers[m.worker];
      next.copy == k.copy && next.removed == k.removed && next.end == k.end &&
      (k.removed > 0 ==> next.phase == Lock && next.position == k.position) &&
      (k.removed == 0 ==> next.phase == Fetch && next.position == k.position + 1)
  {
  }

  lemma SucceededNext(states: seq<State>, moves: seq<Move>, w: nat, f: nat, i: nat, j: nat)
    requires |states| == |moves| + 1 && f < i < |moves|
    ensures Succeeded(states, moves, w, f, i + 1, j)
      <==> Succeeded(states, moves, w, f, i, j) || (Tests(states[i], moves[i], w, j) && moves[i].stale)
    ensures Tried(states, moves, w, f, i + 1, j) <==> Tried(states, moves, w, f, i, j) || Tests(states[i], moves[i], w, j)
  {
    hide Tests;
  }

  /** A pass starts with the row as it is. */
  lemma PassStarts(runs: Formula -> bool, states: seq<State>, moves: seq<Move>, w: nat, f: nat)
    requires Run(runs, states, moves) && f < |moves| && Fetches(states[f], moves[f], w)
    ensures Passing(states, moves, w, f, f + 1, states[f].head[states[f].workers[w].position])
    ensures states[f + 1].workers[w].position == states[f].workers[w].position
  {
    RunStep(runs, states, moves, f);
    hide Step, Enabled, RowReady, Run;
    FetchStep(runs, states[f], moves[f]);
    hide Tests;
  }

  lemma PassBystander(runs: Formula -> bool, states: seq<State>, moves: seq<Move>, w: nat, f: nat, i: nat, row: Clause)
    requires Run(runs, states, moves) && f < i < |moves| && Passing(states, moves, w, f, i, row) && moves[i].worker != w
    ensures Passing(states, moves, w, f, i + 1, row) && states[i + 1].workers[w] == states[i].workers[w]
  {
    RunStep(runs, states, moves, i);
    hide Step, Enabled, RowReady, Run, PassOk;
    Bystander(runs, states[i], moves[i], w);
    NothingTried(states, moves, w, f, i);
    hide Succeeded, Tried;
    PassOkSame(states[i].workers[w], states[i + 1].workers[w], row,
      Hits(states, moves, w, f, i), Trials(states, moves, w, f, i),
      Hits(states, moves, w, f, i + 1), Trials(states, moves, w, f, i + 1));
  }

  lemma NothingTried(states: seq<State>, moves: seq<Move>, w: nat, f: nat, i: nat)
    requires |states| == |moves| + 1 && f < i < |moves| && forall j: nat :: !Tests(states[i], moves[i], w, j)
    ensures forall j: nat :: Succeeded(states, moves, w, f, i + 1, j) <==> Succeeded(states, moves, w, f, i, j)
    ensures forall j: nat :: Tried(states, moves, w, f, i + 1, j) <==> Tried(states, moves, w, f, i, j)
  {
    forall j: nat
      ensures Succeeded(states, moves, w, f, i + 1, j) <==> Succeeded(states, moves, w, f, i, j)
      ensures Tried(states, moves, w, f, i + 1, j) <==> Tried(states, moves, w, f, i, j)
    {
      SucceededNext(states, moves, w, f, i, j);
    }
  }

  lemma OneTried(states: seq<State>, moves: seq<Move>, w: nat, f: nat, i: nat, at: nat)
    requires |states| == |moves| + 1 && f < i < |moves| && forall j: nat :: Tests(states[i], moves[i], w, j) ==> j == at
    ensures forall j: nat :: Succeeded(states, moves, w, f, i + 1, j) <==>
      Succeeded(states, moves, w, f, i, j) || (Tests(states[i], moves[i], w, at) && moves[i].stale && j == at)
    ensures forall j: nat :: Tried(states, moves, w, f, i + 1, j) <==>
      Tried(states, moves, w, f, i, j) || (Tests(states[i], moves[i], w, at) && j == at)
  {
    forall j: nat
      ensures Succeeded(states, moves, w, f, i + 1, j)
        <==> Succeeded(states, moves, w, f, i, j) || (Tests(states[i], moves[i], w, at) && moves[i].stale && j == at)
      ensures Tried(states, moves, w, f, i + 1, j) <==> Tried(states, moves, w, f, i, j) || (Tests(states[i], moves[i], w, at) && j == at)
    {
      SucceededNext(states, moves, w, f, i, j);
    }
  }

  lemma PassTrial(runs: Formula -> bool, states: seq<State>, moves: seq<Move>, w: nat, f: nat, i: nat, row: Clause)
    requires Run(runs, states, moves) && f < i < |moves| && Passing(states, moves, w, f, i, row) && moves[i].worker == w
    requires var k := states[i].workers[w]; k.phase.Local? && k.phase.j < |k.copy|
    ensures Passing(states, moves, w, f, i + 1, row) && states[i + 1].workers[w].position == states[i].workers[w].position
  {
    RunStep(runs, states, moves, i);
    hide Step, Enabled, RowReady, Run, PassOk;
    TrialStep(runs, states[i], moves[i]);
    var k := states[i].workers[w];
    OneTried(states, moves, w, f, i, k.phase.j);
    hide Succeeded, Tried;
    PassOkTrial(k, states[i + 1].workers[w], row,
      Hits(states, moves, w, f, i), Trials(states, moves, w, f, i),
      Hits(states, moves, w, f, i + 1), Trials(states, moves, w, f, i + 1),
      k.copy[k.phase.j] != FALSE && moves[i].stale);
  }

  /** With all literals tried the worker proposes its copy, if any test succeeded, and otherwise turns to the next row. */
  lemma PassCloses(runs: Formula -> bool, states: seq<State>, moves: seq<Move>, w: nat, f: nat, i: nat, row: Clause)
    requires Run(runs, states, moves) && f < i < |moves| && Passing(states, moves, w, f, i, row) && moves[i].worker == w
    requires var k := states[i].workers[w]; k.phase.Local? && k.phase.j == |k.copy|
    ensures w < |states[i + 1].workers|
    ensures states[i + 1].workers[w].phase.Lock? ==> Passing(states, moves, w, f, i + 1, row) && states[i + 1].workers[w].position == states[i].workers[w].position
    ensures states[i + 1].workers[w].phase.Lock? <==> exists j: nat :: Succeeded(states, moves, w, f, i, j)
    ensures !states[i + 1].workers[w].phase.Lock? ==>
      states[i + 1].workers[w].phase.Fetch? && states[i + 1].workers[w].position == states[i].workers[w].position + 1
  {
    RunStep(runs, states, moves, i);
    hide Step, Enabled, RowReady, Run;
    PassEnd(runs, states[i], moves[i]);
    NothingTried(states, moves, w, f, i);
    var k := states[i].workers[w];
    PassHit(k, row, Hits(states, moves, w, f, i), Trials(states, moves, w, f, i));
    hide Succeeded, Tried, PassOk;
    assert forall j: nat :: Hits(states, moves, w, f, i)(j) == Succeeded(states, moves, w, f, i, j);
    if states[i + 1].workers[w].phase.Lock? {
      PassOkSame(k, states[i + 1].workers[w], row, Hits(states, moves, w, f, i), Trials(states, moves, w, f, i),
        Hits(states, moves, w, f, i + 1), Trials(states, moves, w, f, i + 1));
    }
  }

  lemma {:induction false} PassHolds(runs: Formula -> bool, states: seq<State>, moves: seq<Move>, w: nat, f: nat, i: nat)
    requires Run(runs, states, moves) && f < i <= |moves| && Fetches(states[f], moves[f], w) && SamePass(states, moves, w, f, i)
    requires w < |states[i].workers| && (states[i].workers[w].phase.Local? || states[i].workers[w].phase.Lock?)
    ensures Passing(states, moves, w, f, i, states[f].head[states[f].workers[w].position])
    ensures states[i].workers[w].position == states[f].workers[w].position
  {
    assert |states| == |moves| + 1;
    var row := states[f].head[states[f].workers[w].position];
    hide Run, Passing, Fetches, Step;
    if i == f + 1 {
      PassStarts(runs, states, moves, w, f);
    } else {
      var h: nat := i - 1;
      EarlierPhase(runs, states, moves, w, f, h);
      PassHolds(runs, states, moves, w, f, h);
      if moves[h].worker != w {
        PassBystander(runs, states, moves, w, f, h, row);
      } else if states[h].workers[w].phase.j < |states[h].workers[w].copy| {
        PassTrial(runs, states, moves, w, f, h, row);
      } else {
        PassBounded(states, moves, w, f, h, row);
        PassCloses(runs, states, moves, w, f, h, row);
        NotReopened(runs, states, moves, w, h);
      }
    }
  }

  lemma PassBounded(states: seq<State>, moves: seq<Move>, w: nat, f: nat, i: nat, row: Clause)
    requires |states| == |moves| + 1 && f < i <= |moves| && Passing(states, moves, w, f, i, row) && states[i].workers[w].phase.Local?
    ensures states[i].workers[w].phase.j <= |states[i].workers[w].copy|
  {
    hide Succeeded, Tried, Tests;
  }

  lemma EarlierPhase(runs: Formula -> bool, states: seq<State>, moves: seq<Move>, w: nat, f: nat, h: nat)
    requires Run(runs, states, moves) && f < h < |moves| && SamePass(states, moves, w, f, h + 1)
    requires w < |states[h + 1].workers| && (states[h + 1].workers[w].phase.Local? || states[h + 1].workers[w].phase.Lock?)
    ensures SamePass(states, moves, w, f, h)
    ensures w < |states[h].workers| && (states[h].workers[w].phase.Local? || (moves[h].worker != w && states[h].workers[w].phase.Lock?))
  {
    RunStep(runs, states, moves, h);
    if moves[h].worker != w {
      assert |states[h + 1].workers| == |states[h].workers|;
      Bystander(runs, states[h], moves[h], w);
    }
  }

  lemma NotReopened(runs: Formula -> bool, states: seq<State>, moves: seq<Move>, w: nat, h: nat)
    requires Run(runs, states, moves) && h < |moves| && moves[h].worker == w && w < |states[h].workers|
    requires states[h].workers[w].phase.Local? && states[h].workers[w].phase.j >= |states[h].workers[w].copy|
    ensures w < |states[h + 1].workers| && !states[h + 1].workers[w].phase.Local?
  {
    RunStep(runs, states, moves, h);
  }

  /**
   * What a worker takes to the shared formula differs from the row it fetched exactly at the literals whose local
   * test succeeded in that pass, and every literal that was not FALSE has been tested.
   */
  lemma ProposalExact(runs: Formula -> bool, states: seq<State>, moves: seq<Move>, w: nat, f: nat, i: nat)
    requires Run(runs, states, moves) && f < i <= |moves| && Fetches(states[f], moves[f], w) && SamePass(states, moves, w, f, i)
    requires w < |states[i].workers| && states[i].workers[w].phase.Lock?
    ensures var row, k := states[f].head[states[f].workers[w].position], states[i].workers[w];
      && k.position == states[f].workers[w].position && |k.copy| == |row|
      && (forall j: nat :: j < |row| ==> k.copy[j] == if Succeeded(states, moves, w, f, i, j) then FALSE else row[j])
      && (forall j: nat :: j < |row| ==> (k.copy[j] != row[j] <==> Succeeded(states, moves, w, f, i, j)))
      && (forall j: nat :: j < |row| && row[j] != FALSE ==> Tried(states, moves, w, f, i, j))
  {
    PassHolds(runs, states, moves, w, f, i);
    hide Run, Step, Fetches, SamePass;
    hide Succeeded, Tried, Tests;
  }

  // ---- what is checked is what was proposed ----

  lemma OwnNewRow(runs: Formula -> bool, s: State, m: Move)
    requires Structured(s) && Enabled(s, m.worker) && (s.workers[m.worker].phase.Lock? || s.workers[m.worker].phase.Swap?)
    ensures RowReady(s, m.worker) && Structured(Step(runs, s, m))
    ensures var k, t := s.workers[m.worker], Step(runs, s, m);
      var next := t.workers[m.worker];
      && next.position == k.position < |s.head| == |t.head| && (next.phase.Swap? || next.phase.Check?)
      && RowReady(t, m.worker) && NewRow(next, t.head[k.position]) == NewRow(k, s.head[k.position])
  {
    StepStructured(runs, s, m);
    assert RowReady(s, m.worker) && RowReady(Step(runs, s, m), m.worker) && s.workers[m.worker].position < |s.head| by {
      assert WorkerOk(s, m.worker) && WorkerOk(Step(runs, s, m), m.worker);
    }
    hide Structured, WorkerOk, OldRow;
    var k := s.workers[m.worker];
    var row := s.head[k.position];
    if k.phase.Lock? {
      EndRows(row, k.copy);
    } else if k.phase.j == |k.copy| {
      EndRows(row, k.copy);
    } else if row[k.phase.j] == k.copy[k.phase.j] {
      SkipRows(row, k.copy, k.phase.j);
    } else {
      SwapRows(row, k.copy, k.phase.j);
    }
  }

  lemma OtherNewRow(runs: Formula -> bool, s: State, m: Move, w: nat)
    requires Structured(s) && Enabled(s, m.worker) && w < |s.workers| && w != m.worker && Proposing(s.workers[w].phase)
    ensures RowReady(s, m.worker) && Structured(Step(runs, s, m)) && w < |Step(runs, s, m).workers|
    ensures Step(runs, s, m).workers[w] == s.workers[w] && s.workers[w].position < |s.head| == |Step(runs, s, m).head|
    ensures Step(runs, s, m).head[s.workers[w].position] == s.head[s.workers[w].position]
  {
    StepStructured(runs, s, m);
    StepOwn(runs, s, m);
    assert WorkerOk(s, w) && WorkerOk(s, m.worker);
    hide Step, Falsified, FalseCount, OldRow, NewRow, HolderOk;
  }

  /** From state `i` to state `c` worker `w` only takes the mutex and exchanges its row. */
  ghost predicate SameCommit(states: seq<State>, moves: seq<Move>, w: nat, i: nat, c: nat)
    requires |states| == |moves| + 1 && c <= |moves|
  {
    forall t: nat :: i <= t < c && moves[t].worker == w ==> w < |states[t].workers| && (states[t].workers[w].phase.Lock? || states[t].workers[w].phase.Swap?)
  }

  ghost predicate Offering(s: State, w: nat, p: nat, proposal: Clause) {
    w < |s.workers| && RowReady(s, w) &&
    var k := s.workers[w];
    (k.phase.Lock? || k.phase.Swap? || k.phase.Check?) && k.position == p < |s.head| && NewRow(k, s.head[p]) == proposal
  }

  lemma OfferingStep(runs: Formula -> bool, s: State, m: Move, w: nat, p: nat, proposal: Clause)
    requires Structured(s) && Enabled(s, m.worker) && Offering(s, w, p, proposal)
    requires m.worker == w ==> s.workers[w].phase.Lock? || s.workers[w].phase.Swap?
    ensures RowReady(s, m.worker) && Offering(Step(runs, s, m), w, p, proposal)
  {
    if m.worker == w {
      OwnNewRow(runs, s, m);
    } else {
      OtherNewRow(runs, s, m, w);
      assert WorkerOk(Step(runs, s, m), w);
    }
    hide Step, WorkerOk, HolderOk, Apart, NewRow;
  }

  /** The row a worker has in the shared formula when it is checked is the copy it proposed. */
  lemma {:induction false} CheckedIsProposed(runs: Formula -> bool, states: seq<State>, moves: seq<Move>, start: Formula, w: nat, i: nat, c: nat)
    requires Run(runs, states, moves) && i <= c <= |moves| && Inv(runs, start, states[0]) && SameCommit(states, moves, w, i, c)
    requires w < |states[i].workers| && states[i].workers[w].phase.Lock?
    ensures w < |states[c].workers| && states[i].workers[w].position < |states[c].head|
    ensures Offering(states[c], w, states[i].workers[w].position, states[i].workers[w].copy)
    ensures states[c].workers[w].phase.Check? ==> states[c].head[states[i].workers[w].position] == states[i].workers[w].copy
  {
    assert |states| == |moves| + 1;
    hide *;
    RunStructured(runs, states, moves, start, i);
    if c == i {
      OfferingStarts(states[i], w);
    } else {
      CommitBefore(states, moves, w, i, c);
      CheckedIsProposed(runs, states, moves, start, w, i, c - 1);
      RunStructured(runs, states, moves, start, c - 1);
      RunStep(runs, states, moves, c - 1);
      OfferingHere(states[c - 1], w, states[i].workers[w].position, states[i].workers[w].copy);
      OfferingStep(runs, states[c - 1], moves[c - 1], w, states[i].workers[w].position, states[i].workers[w].copy);
    }
    OfferingHere(states[c], w, states[i].workers[w].position, states[i].workers[w].copy);
  }

  lemma RunStructured(runs: Formula -> bool, states: seq<State>, moves: seq<Move>, start: Formula, i: nat)
    requires Run(runs, states, moves) && i < |states| && Inv(runs, start, states[0])
    ensures Structured(states[i])
  {
    hide AllWork, Step, Run;
    RunInv(runs, states, moves, start, i);
  }

  lemma CommitBefore(states: seq<State>, moves: seq<Move>, w: nat, i: nat, c: nat)
    requires |states| == |moves| + 1 && i < c <= |moves| && SameCommit(states, moves, w, i, c)
    ensures SameCommit(states, moves, w, i, c - 1)
    ensures moves[c - 1].worker == w ==> w < |states[c - 1].workers| && (states[c - 1].workers[w].phase.Lock? || states[c - 1].workers[w].phase.Swap?)
  {
  }

  lemma OfferingStarts(s: State, w: nat)
    requires Structured(s) && w < |s.workers| && s.workers[w].phase.Lock?
    ensures Offering(s, w, s.workers[w].position, s.workers[w].copy)
  {
    assert WorkerOk(s, w);
    hide Falsified, FalseCount, Apart, HolderOk;
  }

  lemma OfferingHere(s: State, w: nat, p: nat, proposal: Clause)
    requires Offering(s, w, p, proposal)
    ensures w < |s.workers| && p < |s.head| && (s.workers[w].phase.Check? ==> s.head[p] == proposal)
  {
  }

  // ---- a single worker ----

  /** The formula with what the only worker proposes. */
  function Proposed(s: State): Formula
    requires |s.workers| == 1 && WorkerOk(s, 0)
  {
    var k := s.workers[0];
    if Proposing(k.phase) then s.head[k.position := NewRow(k, s.head[k.position])] else s.head
  }

  /** The outcome of a local test is that of the formula the worker sees. */
  ghost predicate Truthful(runs: Formula -> bool, s: State, m: Move) {
    forall j: nat :: Tests(s, m, 0, j) && s.workers[0].position < |s.head| ==>
      (m.stale <==> runs(s.head[s.workers[0].position := s.workers[0].copy[j := FALSE]]))
  }

  /** Nothing is undone, and what has been removed locally was seen to run. */
  ghost predicate Solo(runs: Formula -> bool, s: State) {
    Structured(s) && |s.workers| == 1 && WorkerOk(s, 0) && !s.workers[0].phase.Undo? &&
    (Proposing(s.workers[0].phase) && (s.workers[0].removed > 0 || !s.workers[0].phase.Local?) ==> runs(Proposed(s)))
  }

  /** Removing literal `j` of row `r`. */
  function Removed(f: Formula, r: nat, j: nat): Formula
    requires r < |f| && j < |f[r]|
  {
    f[r := f[r][j := FALSE]]
  }

  lemma {:induction false} FalseCountUp(a: Clause, b: Clause)
    requires Falsified(a, b)
    ensures FalseCount(b) >= FalseCount(a)
    ensures FalseCount(b) == FalseCount(a) ==> a == b
  {
    if a != [] {
      assert forall j: nat :: j < |a| - 1 ==> a[1..][j] == a[j + 1] && b[1..][j] == b[j + 1];
      FalseCountUp(a[1..], b[1..]);
      assert a == [a[0]] + a[1..] && b == [b[0]] + b[1..];
    }
  }

  /** The proposal after a step: one literal fewer if a local test succeeds. */
  function After(s: State, m: Move): Formula
    requires |s.workers| == 1 && WorkerOk(s, 0)
  {
    var k := s.workers[0];
    if k.phase.Local? && Tests(s, m, 0, k.phase.j) && m.stale then Removed(Proposed(s), k.position, k.phase.j) else Proposed(s)
  }

  lemma SoloFetch(runs: Formula -> bool, s: State, m: Move)
    requires Solo(runs, s) && Enabled(s, m.worker) && s.workers[0].phase.Fetch?
    ensures RowReady(s, m.worker) && Solo(runs, Step(runs, s, m)) && Proposed(Step(runs, s, m)) == After(s, m)
  {
    StepStructured(runs, s, m);
    assert WorkerOk(Step(runs, s, m), 0);
    hide Structured, FalseCount, Falsified;
  }

  lemma SoloTrial(runs: Formula -> bool, s: State, m: Move)
    requires Solo(runs, s) && Enabled(s, m.worker) && Truthful(runs, s, m)
    requires s.workers[0].phase.Local? && s.workers[0].phase.j < |s.workers[0].copy|
    ensures RowReady(s, m.worker) && Solo(runs, Step(runs, s, m)) && Proposed(Step(runs, s, m)) == After(s, m)
  {
    StepStructured(runs, s, m);
    assert WorkerOk(Step(runs, s, m), 0);
    hide Structured, FalseCount, Falsified, OldRow;
    TrialStep(runs, s, m);
    hide Step;
  }

  lemma SoloPassEnd(runs: Formula -> bool, s: State, m: Move)
    requires Solo(runs, s) && Enabled(s, m.worker)
    requires s.workers[0].phase.Local? && s.workers[0].phase.j == |s.workers[0].copy|
    ensures RowReady(s, m.worker) && Solo(runs, Step(runs, s, m)) && Proposed(Step(runs, s, m)) == After(s, m)
  {
    StepStructured(runs, s, m);
    assert WorkerOk(Step(runs, s, m), 0);
    var k := s.workers[0];
    FalseCountUp(s.head[k.position], k.copy);
    PassEnd(runs, s, m);
    hide Structured, FalseCount, Falsified, Step;
  }

  lemma SoloCommit(runs: Formula -> bool, s: State, m: Move)
    requires Solo(runs, s) && Enabled(s, m.worker) && (s.workers[0].phase.Lock? || s.workers[0].phase.Swap?)
    ensures RowReady(s, m.worker) && Solo(runs, Step(runs, s, m)) && Proposed(Step(runs, s, m)) == After(s, m)
  {
    OwnNewRow(runs, s, m);
    StepOwn(runs, s, m);
    var t, p := Step(runs, s, m), s.workers[0].position;
    assert WorkerOk(t, 0);
    hide Structured, FalseCount, Falsified, Step, NewRow, OldRow, WorkerOk, RowReady, Enabled;
    assert t.head[p := NewRow(t.workers[0], t.head[p])] == s.head[p := NewRow(s.workers[0], s.head[p])];
  }

  lemma SoloCheck(runs: Formula -> bool, s: State, m: Move)
    requires Solo(runs, s) && Enabled(s, m.worker) && (s.workers[0].phase.Check? || s.workers[0].phase.Release?)
    ensures RowReady(s, m.worker) && Solo(runs, Step(runs, s, m)) && Proposed(Step(runs, s, m)) == After(s, m)
  {
    StepStructured(runs, s, m);
    assert WorkerOk(Step(runs, s, m), 0);
    hide Structured, FalseCount, Falsified, OldRow;
    if s.workers[0].phase.Check? {
      var p := s.workers[0].position;
      assert s.head[p := s.head[p]] == s.head;
    }
  }

  lemma SoloStep(runs: Formula -> bool, s: State, m: Move)
    requires Solo(runs, s) && Enabled(s, m.worker) && Truthful(runs, s, m)
    ensures RowReady(s, m.worker) && Solo(runs, Step(runs, s, m)) && Proposed(Step(runs, s, m)) == After(s, m)
  {
    var k := s.workers[0];
    assert k.phase.Local? ==> k.phase.j <= |k.copy|;
    hide Solo, Step, Proposed, After, Truthful, RowReady;
    if k.phase.Fetch? {
      SoloFetch(runs, s, m);
    } else if k.phase.Local? {
      if k.phase.j < |k.copy| {
        SoloTrial(runs, s, m);
      } else {
        SoloPassEnd(runs, s, m);
      }
    } else if k.phase.Lock? || k.phase.Swap? {
      SoloCommit(runs, s, m);
    } else {
      assert k.phase.Check? || k.phase.Release?;
      SoloCheck(runs, s, m);
    }
  }

  /** The worker is done with literal `j` of row `r`. */
  predicate Visited(s: State, r: nat, j: nat)
    requires |s.workers| == 1
  {
    var k := s.workers[0];
    r < k.position || (r == k.position && !k.phase.Fetch? && !k.phase.Finished? && (k.phase.Local? ==> j < k.phase.j))
  }

  lemma VisitedStep(runs: Formula -> bool, s: State, m: Move, r: nat, j: nat)
    requires Solo(runs, s) && Enabled(s, m.worker) && r < |s.head| && j < |s.head[r]|
    ensures RowReady(s, m.worker) && |Step(runs, s, m).workers| == 1
    ensures Visited(Step(runs, s, m), r, j) ==> Visited(s, r, j) || (s.workers[0].phase == Local(j) && s.workers[0].position == r)
  {
    hide Structured, FalseCount, Falsified, OldRow, NewRow, Proposed;
  }

  lemma ProposedRows(s: State)
    requires |s.workers| == 1 && WorkerOk(s, 0)
    ensures SameLengths(s.head, Proposed(s))
    ensures forall j: nat, m: Move :: Tests(s, m, 0, j) ==>
      s.workers[0].position < |s.head| && j < |Proposed(s)[s.workers[0].position]| &&
      s.head[s.workers[0].position := s.workers[0].copy[j := FALSE]] == Removed(Proposed(s), s.workers[0].position, j)
  {
    hide FalseCount;
  }

  /** Step `t` found that literal `j` of row `r` cannot be removed from the formula of that moment. */
  ghost predicate Refused(runs: Formula -> bool, states: seq<State>, moves: seq<Move>, t: nat, r: nat, j: nat)
    requires |states| == |moves| + 1
  {
    t < |moves| && |states[t].workers| == 1 && WorkerOk(states[t], 0) && Tests(states[t], moves[t], 0, j) && states[t].workers[0].position == r &&
    r < |Proposed(states[t])| && j < |Proposed(states[t])[r]| && !runs(Removed(Proposed(states[t]), r, j))
  }

  /** Step `t` found that it can. */
  ghost predicate Granted(runs: Formula -> bool, states: seq<State>, moves: seq<Move>, t: nat, r: nat, j: nat)
    requires |states| == |moves| + 1
  {
    t < |moves| && |states[t].workers| == 1 && WorkerOk(states[t], 0) && Tests(states[t], moves[t], 0, j) && states[t].workers[0].position == r &&
    r < |Proposed(states[t])| && j < |Proposed(states[t])[r]| && runs(Removed(Proposed(states[t]), r, j))
  }

  /** Every literal the worker is done with is FALSE or was refused, and the granted ones are FALSE. */
  ghost predicate Decided(runs: Formula -> bool, states: seq<State>, moves: seq<Move>, i: nat)
    requires |states| == |moves| + 1 && i <= |moves| && |states[i].workers| == 1 && WorkerOk(states[i], 0)
  {
    && (forall r: nat, j: nat :: r < |Proposed(states[i])| && j < |Proposed(states[i])[r]| && Visited(states[i], r, j) ==>
          Proposed(states[i])[r][j] == FALSE || exists t: nat :: t < i && Refused(runs, states, moves, t, r, j))
    && (forall t: nat, r: nat, j: nat :: t < i && Granted(runs, states, moves, t, r, j) ==>
          r < |Proposed(states[i])| && j < |Proposed(states[i])[r]| && Proposed(states[i])[r][j] == FALSE)
  }

  /** Later formulas differ from `f` by literals turned FALSE. */
  ghost predicate Below(f: Formula, g: Formula) {
    SameLengths(f, g) && forall r: nat, j: nat :: r < |f| && j < |f[r]| ==> g[r][j] == f[r][j] || g[r][j] == FALSE
  }

  lemma AfterBelow(s: State, m: Move)
    requires |s.workers| == 1 && WorkerOk(s, 0)
    ensures Below(Proposed(s), After(s, m))
  {
    ProposedRows(s);
    hide WorkerOk, Proposed, RowReady;
  }

  /** A literal under trial is FALSE already, or its test tells whether the formula runs without it. */
  lemma TrialOutcome(runs: Formula -> bool, s: State, m: Move, r: nat, j: nat)
    requires Solo(runs, s) && Enabled(s, m.worker) && Truthful(runs, s, m) && s.workers[0].phase == Local(j) && s.workers[0].position == r
    requires r < |Proposed(s)| && j < |Proposed(s)[r]|
    ensures Proposed(s)[r][j] == FALSE ||
      (Tests(s, m, 0, j) && (m.stale <==> runs(Removed(Proposed(s), r, j))) && (m.stale ==> After(s, m) == Removed(Proposed(s), r, j)))
  {
    ProposedRows(s);
    hide Structured, FalseCount, Falsified, OldRow;
    assert m.worker == 0 && Proposed(s)[r] == s.workers[0].copy;
    if Tests(s, m, 0, j) {
      assert m.stale <==> runs(s.head[s.workers[0].position := s.workers[0].copy[j := FALSE]]);
    }
  }

  lemma LiteralDecided(runs: Formula -> bool, states: seq<State>, moves: seq<Move>, i: nat, r: nat, j: nat)
    requires Run(runs, states, moves) && i < |moves| && Solo(runs, states[i]) && Truthful(runs, states[i], moves[i])
    requires Decided(runs, states, moves, i) && Solo(runs, states[i + 1]) && Proposed(states[i + 1]) == After(states[i], moves[i])
    requires r < |Proposed(states[i])| && j < |Proposed(states[i])[r]| && Visited(states[i + 1], r, j)
    ensures r < |Proposed(states[i + 1])| && j < |Proposed(states[i + 1])[r]|
    ensures Proposed(states[i + 1])[r][j] == FALSE || exists t: nat :: t < i + 1 && Refused(runs, states, moves, t, r, j)
  {
    var s, m := states[i], moves[i];
    RunStep(runs, states, moves, i);
    ProposedRows(s);
    VisitedStep(runs, s, m, r, j);
    AfterBelow(s, m);
    hide Run, Step, Proposed, After, Structured, WorkerOk, Enabled, RowReady, Visited;
    if Visited(s, r, j) {
      if Proposed(s)[r][j] != FALSE {
        var t: nat :| t < i && Refused(runs, states, moves, t, r, j);
        hide Refused;
        assert t < i + 1;
      }
    } else {
      TrialOutcome(runs, s, m, r, j);
      if Proposed(s)[r][j] != FALSE && !m.stale {
        assert Refused(runs, states, moves, i, r, j);
      }
    }
  }

  lemma GrantedKept(runs: Formula -> bool, states: seq<State>, moves: seq<Move>, i: nat, t: nat, r: nat, j: nat)
    requires Run(runs, states, moves) && i < |moves| && Solo(runs, states[i]) && Truthful(runs, states[i], moves[i])
    requires Decided(runs, states, moves, i) && Solo(runs, states[i + 1]) && Proposed(states[i + 1]) == After(states[i], moves[i])
    requires t < i + 1 && Granted(runs, states, moves, t, r, j)
    ensures r < |Proposed(states[i + 1])| && j < |Proposed(states[i + 1])[r]| && Proposed(states[i + 1])[r][j] == FALSE
  {
    var s, m := states[i], moves[i];
    RunStep(runs, states, moves, i);
    AfterBelow(s, m);
    hide Run, Step, Proposed, After, Structured, WorkerOk, Enabled, RowReady, Visited, Refused, Truthful;
    if t == i {
      TrialOutcome(runs, s, m, r, j);
    } else {
      hide Granted;
    }
  }

  lemma DecidedStep(runs: Formula -> bool, states: seq<State>, moves: seq<Move>, i: nat)
    requires Run(runs, states, moves) && i < |moves| && Solo(runs, states[i]) && Truthful(runs, states[i], moves[i])
    requires Decided(runs, states, moves, i)
    ensures Solo(runs, states[i + 1]) && Decided(runs, states, moves, i + 1)
  {
    var s, m, u := states[i], moves[i], states[i + 1];
    RunStep(runs, states, moves, i);
    SoloStep(runs, s, m);
    AfterBelow(s, m);
    var before, after := Proposed(s), Proposed(u);
    hide Run, Step, Solo, Proposed, After, Refused, Granted, Visited, WorkerOk, RowReady, Truthful, Enabled;
    forall r: nat, j: nat | r < |after| && j < |after[r]| && Visited(u, r, j)
      ensures after[r][j] == FALSE || exists t: nat :: t < i + 1 && Refused(runs, states, moves, t, r, j)
    {
      LiteralDecided(runs, states, moves, i, r, j);
    }
    forall t: nat, r: nat, j: nat | t < i + 1 && Granted(runs, states, moves, t, r, j)
      ensures r < |after| && j < |after[r]| && after[r][j] == FALSE
    {
      GrantedKept(runs, states, moves, i, t, r, j);
    }
  }

  /** Every local test of the run tells the truth about the formula the worker sees. */
  ghost predicate AllTruthful(runs: Formula -> bool, states: seq<State>, moves: seq<Move>)
    requires |states| == |moves| + 1
  {
    forall i: nat :: i < |moves| ==> Truthful(runs, states[i], moves[i])
  }

  lemma {:induction false} SoloRun(runs: Formula -> bool, states: seq<State>, moves: seq<Move>, i: nat)
    requires Run(runs, states, moves) && i <= |moves| && Solo(runs, states[0]) && states[0].workers[0].phase.Fetch? && states[0].workers[0].position == 0
    requires AllTruthful(runs, states, moves)
    ensures Solo(runs, states[i]) && Decided(runs, states, moves, i) && SameLengths(states[0].head, states[i].head)
    ensures states[i].workers[0].end == states[0].workers[0].end
  {
    if i > 0 {
      SoloRun(runs, states, moves, i - 1);
      DecidedStep(runs, states, moves, i - 1);
      RunStep(runs, states, moves, i - 1);
      StepWork(runs, states[i - 1], moves[i - 1]);
      StepOwn(runs, states[i - 1], moves[i - 1]);
      hide Run, Step, Decided, Structured, WorkerOk, Truthful;
    }
  }

  /**
   * A single worker whose tests see the formula as it is never has to undo a proposal. When it has finished, every
   * literal left was refused next to the formula of that moment, and every literal granted is FALSE.
   */
  lemma SoloShrink(runs: Formula -> bool, head: Formula, states: seq<State>, moves: seq<Move>, i: nat)
    requires |head| > 0 && Run(runs, states, moves) && states[0] == Spawn(head, 1) && i <= |moves|
    requires AllTruthful(runs, states, moves)
    ensures |states[i].workers| == 1 && !states[i].workers[0].phase.Undo?
    ensures AllFinished(states[i]) ==>
      && SameLengths(head, states[i].head)
      && (forall r: nat, j: nat :: r < |head| && j < |head[r]| ==>
            states[i].head[r][j] == FALSE || exists t: nat :: t < i && Refused(runs, states, moves, t, r, j))
      && (forall t: nat, r: nat, j: nat :: t < i && Granted(runs, states, moves, t, r, j) ==>
            r < |head| && j < |head[r]| && states[i].head[r][j] == FALSE)
  {
    SpawnInv(runs, head, 1);
    SpawnOne(runs, head);
    SoloRun(runs, states, moves, i);
    if AllFinished(states[i]) {
      AllVisited(runs, states[i]);
    }
    hide Run, Step, Structured, Refused, Granted, AllTruthful;
  }

  lemma SpawnOne(runs: Formula -> bool, head: Formula)
    requires |head| > 0
    ensures var s := Spawn(head, 1); Solo(runs, s) && s.workers[0].phase.Fetch? && s.workers[0].position == 0 && s.workers[0].end == |head| && s.head == head
  {
    SpawnInv(runs, head, 1);
    var s := Spawn(head, 1);
    assert s.workers[0] == Worker(0, |head|, Fetch, [], 0, 0);
    assert WorkerOk(s, 0);
    hide Structured, AllFalse, Totals;
  }

  lemma AllVisited(runs: Formula -> bool, s: State)
    requires Solo(runs, s) && AllFinished(s) && s.workers[0].end == |s.head|
    ensures Proposed(s) == s.head && forall r: nat, j: nat :: r < |s.head| ==> Visited(s, r, j)
  {
    assert s.workers[0].phase.Finished?;
    hide Structured;
  }

  /** Such a run exists for every formula and test: the worker simply goes on until it has finished. */
  lemma {:induction false} SoloContinues(runs: Formula -> bool, start: Formula, states: seq<State>, moves: seq<Move>)
      returns (states': seq<State>, moves': seq<Move>)
    requires Run(runs, states, moves) && AllTruthful(runs, states, moves) && |states[0].workers| == 1 && Inv(runs, start, states[0])
    ensures Run(runs, states', moves') && AllTruthful(runs, states', moves') && states'[0] == states[0]
    ensures AllFinished(states'[|moves'|])
    decreases AllWork(states[0].head, states[0].workers) - |moves|
  {
    RunInv(runs, states, moves, start, |moves|);
    OneWorker(runs, states, moves, |moves|);
    var s := states[|moves|];
    if AllFinished(s) {
      states', moves' := states, moves;
    } else {
      var m := NextMove(runs, s);
      NoDeadlock(s);
      StepKeeps(runs, start, s, m);
      StepProgress(runs, s, m);
      var states1, moves1 := states + [Step(runs, s, m)], moves + [m];
      hide Step, Inv, Truthful, Enabled, RowReady, AllFinished, AllWork;
      RunGrows(runs, states, moves, m);
      RunInv(runs, states1, moves1, start, |moves1|);
      states', moves' := SoloContinues(runs, start, states1, moves1);
    }
  }

  lemma RunGrows(runs: Formula -> bool, states: seq<State>, moves: seq<Move>, m: Move)
    requires Run(runs, states, moves) && AllTruthful(runs, states, moves)
    requires Enabled(states[|moves|], m.worker) && RowReady(states[|moves|], m.worker) && Truthful(runs, states[|moves|], m)
    ensures Run(runs, states + [Step(runs, states[|moves|], m)], moves + [m])
    ensures AllTruthful(runs, states + [Step(runs, states[|moves|], m)], moves + [m])
  {
    hide Step, Enabled, RowReady, Truthful;
  }

  lemma {:induction false} OneWorker(runs: Formula -> bool, states: seq<State>, moves: seq<Move>, i: nat)
    requires Run(runs, states, moves) && i <= |moves|
    ensures |states[i].workers| == |states[0].workers|
  {
    if i > 0 {
      OneWorker(runs, states, moves, i - 1);
      RunStep(runs, states, moves, i - 1);
      hide Enabled, RowReady, Run;
    }
  }

  /** The worker's move, with the outcome its test has. */
  ghost function NextMove(runs: Formula -> bool, s: State): (m: Move)
    requires |s.workers| == 1
    ensures m.worker == 0 && Truthful(runs, s, m)
  {
    var k := s.workers[0];
    Move(0, k.phase.Local? && k.phase.j < |k.copy| && k.position < |s.head| && runs(s.head[k.position := k.copy[k.phase.j := FALSE]]))
  }

  lemma SoloExists(runs: Formula -> bool, head: Formula) returns (states: seq<State>, moves: seq<Move>)
    requires |head| > 0
    ensures Run(runs, states, moves) && states[0] == Spawn(head, 1) && AllTruthful(runs, states, moves) && AllFinished(states[|moves|])
  {
    SpawnInv(runs, head, 1);
    states, moves := SoloContinues(runs, head, [Spawn(head, 1)], []);
  }
}
