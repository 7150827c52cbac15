/** Which clauses the literal-shrinking workers take up: in a finished run every one, exactly once. */
module ShrinkCoverage {
  import opened ParallelShrink
  import opened ShrinkProposals

  /** Step `i` takes up row `r` for worker `w`. */
  predicate TakesUp(states: seq<State>, moves: seq<Move>, i: nat, w: nat, r: nat)
    requires |states| == |moves| + 1
  {
    i < |moves| && Fetches(states[i], moves[i], w) && states[i].workers[w].position == r
  }

  /** The worker has taken up row `r` or gone past it. */
  predicate Begun(k: Worker, r: nat) { k.position > r || (k.position == r && !k.phase.Fetch? && !k.phase.Finished?) }

  lemma StepBegins(runs: Formula -> bool, s: State, m: Move, w: nat, r: nat)
    requires Enabled(s, m.worker) && RowReady(s, m.worker) && w < |s.workers|
    ensures var next := Step(runs, s, m).workers;
      |next| == |s.workers| && next[w].end == s.workers[w].end && next[w].position >= s.workers[w].position
    ensures var k, next := s.workers[w], Step(runs, s, m).workers[w];
      Begun(next, r) <==> Begun(k, r) || (k.position == r && Fetches(s, m, w))
  {
    if m.worker != w {
      Bystander(runs, s, m, w);
    }
  }

  lemma {:induction false} RangeKept(runs: Formula -> bool, states: seq<State>, moves: seq<Move>, w: nat, i: nat)
    requires Run(runs, states, moves) && i <= |moves| && w < |states[0].workers|
    ensures |states[i].workers| == |states[0].workers|
    ensures states[i].workers[w].end == states[0].workers[w].end && states[i].workers[w].position >= states[0].workers[w].position
  {
    hide Step, Enabled, RowReady;
    if i > 0 {
      RangeKept(runs, states, moves, w, i - 1);
      RunStep(runs, states, moves, i - 1);
      StepBegins(runs, states[i - 1], moves[i - 1], w, 0);
    }
  }

  /** A row that is behind the worker or in work has been taken up. */
  lemma {:induction false} TakenUp(runs: Formula -> bool, states: seq<State>, moves: seq<Move>, w: nat, r: nat, i: nat) returns (f: nat)
    requires Run(runs, states, moves) && i <= |moves| && w < |states[0].workers|
    requires !Begun(states[0].workers[w], r) && |states[i].workers| == |states[0].workers| && Begun(states[i].workers[w], r)
    ensures f < i && TakesUp(states, moves, f, w, r)
  {
    hide Step, Enabled, RowReady, Begun, Fetches;
    RangeKept(runs, states, moves, w, i - 1);
    RunStep(runs, states, moves, i - 1);
    StepBegins(runs, states[i - 1], moves[i - 1], w, r);
    if Begun(states[i - 1].workers[w], r) {
      f := TakenUp(runs, states, moves, w, r, i - 1);
    } else {
      f := i - 1;
    }
  }

  /** Once taken up a row stays so. */
  lemma {:induction false} StaysBegun(runs: Formula -> bool, states: seq<State>, moves: seq<Move>, w: nat, r: nat, f: nat, i: nat)
    requires Run(runs, states, moves) && f < i <= |moves| && w < |states[0].workers| && TakesUp(states, moves, f, w, r)
    ensures |states[i].workers| == |states[0].workers| && Begun(states[i].workers[w], r)
  {
    hide Step, Enabled, RowReady, Begun, Fetches;
    RangeKept(runs, states, moves, w, i - 1);
    RunStep(runs, states, moves, i - 1);
    StepBegins(runs, states[i - 1], moves[i - 1], w, r);
    if f < i - 1 {
      StaysBegun(runs, states, moves, w, r, f, i - 1);
    }
  }

  /** Every row belongs to some worker. */
  lemma SpawnCovers(head: Formula, threads: nat, r: nat) returns (w: nat)
    requires threads > 0 && r < |head|
    ensures var ws := Spawn(head, threads).workers; w < |ws| && ws[w].position <= r < ws[w].end && ws[w].phase.Fetch?
  {
    var n := Min(threads, |head|);
    var width := |head| / n;
    var q := r / width;
    assert r == q * width + r % width;
    w := if q < n - 1 then q else n - 1;
    assert q * width == w * width + (q - w) * width;
  }

  lemma SpawnApart(runs: Formula -> bool, head: Formula, threads: nat)
    requires |head| > 0 && threads > 0
    ensures Apart(Spawn(head, threads).workers)
  {
    SpawnInv(runs, head, threads);
  }

  lemma FinishedPast(runs: Formula -> bool, head: Formula, threads: nat, states: seq<State>, moves: seq<Move>, w: nat)
    requires |head| > 0 && threads > 0 && Run(runs, states, moves) && states[0] == Spawn(head, threads)
    requires w < |states[|moves|].workers| && states[|moves|].workers[w].phase.Finished?
    ensures states[|moves|].workers[w].position == states[|moves|].workers[w].end
  {
    hide Step, Enabled, RowReady, Spawn;
    SpawnInv(runs, head, threads);
    RunInv(runs, states, moves, head, |moves|);
    assert WorkerOk(states[|moves|], w);
  }

  /** In a run that has finished every row was taken up. */
  lemma EveryRowTried(runs: Formula -> bool, head: Formula, threads: nat, states: seq<State>, moves: seq<Move>, r: nat) returns (w: nat, f: nat)
    requires |head| > 0 && threads > 0 && Run(runs, states, moves) && states[0] == Spawn(head, threads) && AllFinished(states[|moves|])
    requires r < |head|
    ensures TakesUp(states, moves, f, w, r)
  {
    hide Step, Enabled, RowReady, Spawn, Fetches;
    w := SpawnCovers(head, threads, r);
    RangeKept(runs, states, moves, w, |moves|);
    FinishedPast(runs, head, threads, states, moves, w);
    f := TakenUp(runs, states, moves, w, r, |moves|);
  }

  /** No row is ever taken up twice, by one worker or by two. */
  lemma NoRowTwice(runs: Formula -> bool, head: Formula, threads: nat, states: seq<State>, moves: seq<Move>, r: nat,
      f: nat, w: nat, g: nat, v: nat)
    requires |head| > 0 && threads > 0 && Run(runs, states, moves) && states[0] == Spawn(head, threads)
    requires TakesUp(states, moves, f, w, r) && TakesUp(states, moves, g, v, r)
    ensures f == g && w == v
  {
    hide Step, Enabled, RowReady, Spawn;
    SpawnApart(runs, head, threads);
    SameWorkers(runs, states, moves, f);
    SameWorkers(runs, states, moves, g);
    RangeKept(runs, states, moves, w, f);
    RangeKept(runs, states, moves, v, g);
    if f < g && w == v {
      StaysBegun(runs, states, moves, w, r, f, g);
    }
    if g < f && w == v {
      StaysBegun(runs, states, moves, w, r, g, f);
    }
  }

  lemma {:induction false} SameWorkers(runs: Formula -> bool, states: seq<State>, moves: seq<Move>, i: nat)
    requires Run(runs, states, moves) && i <= |moves|
    ensures |states[i].workers| == |states[0].workers|
  {
    hide Step, Enabled, RowReady;
    if i > 0 {
      SameWorkers(runs, states, moves, i - 1);
      RunStep(runs, states, moves, i - 1);
      StepSameSize(runs, states[i - 1], moves[i - 1]);
    }
  }

  lemma StepSameSize(runs: Formula -> bool, s: State, m: Move)
    requires Enabled(s, m.worker) && RowReady(s, m.worker)
    ensures |Step(runs, s, m).workers| == |s.workers|
  {
  }
}
