/** What a run of the delta debugger's rounds goes through, and when its result is minimal. */
module DeltaHistory {
  import opened DeltaLists

  type Formula = seq<Clause>

  /** No single item can be left out: every formula with one item less stops failing. */
  ghost predicate OneMinimal<T(!new)>(test: seq<Clause> -> Outcome, view: View<T>, s: seq<T>) {
    forall i: nat {:trigger Without(s, i)} :: i < |s| ==> test(view.config(Without(s, i))) != Failed
  }

  datatype Granularity = Both | ClausesOnly | LiteralsOnly

  ghost predicate MinimalClause(test: seq<Clause> -> Outcome, f: seq<Clause>, i: nat)
    requires i < |f|
  {
    |f[i]| >= 2 ==> OneMinimal(test, Single(f, i), f[i])
  }

  /** No literal can be left out of any of the first `n` clauses with two or more literals. */
  ghost predicate ClausesMinimal(test: seq<Clause> -> Outcome, f: seq<Clause>, n: nat)
    requires n <= |f|
  {
    forall i: nat :: i < n ==> MinimalClause(test, f, i)
  }

  lemma SingleConfig(f: seq<Clause>, i: nat, c: Clause)
    requires i < |f|
    ensures Single(f, i).config(c) == f[i := c]
  {
  }

  /** What one minimisation of a list may return; `vars` says that the file declares a variable, so that tests are run. */
  ghost predicate Minimised<T(!new)>(test: Formula -> Outcome, vars: bool, view: View<T>, orig: seq<T>, result: seq<T>) {
    Sublist(result, orig) &&
    (result == orig || (test(view.config(result)) == Failed && 0 < |result| < |orig|)) &&
    (vars && |result| >= 2 ==> OneMinimal(test, view, result))
  }

  /** Clause `i` is minimised while the others stay. */
  ghost predicate PassStep(test: Formula -> Outcome, vars: bool, f: Formula, i: nat, g: Formula) {
    i < |f| == |g| && g == f[i := g[i]] && Minimised(test, vars, Single(f, i), f[i], g[i])
  }

  /** The formulas one pass over all clauses goes through. */
  ghost predicate Pass(test: Formula -> Outcome, vars: bool, fs: seq<Formula>) {
    |fs| >= 1 && |fs| == |fs[0]| + 1 && forall i: nat :: i < |fs[0]| ==> PassStep(test, vars, fs[i], i, fs[i + 1])
  }

  /** One round: the clause list before and after its reduction, and the pass that followed, if one did. */
  datatype Round = Round(before: Formula, reduced: Formula, pass: seq<Formula>)

  function After(r: Round): Formula { if r.pass == [] then r.reduced else r.pass[|r.pass| - 1] }

  /** The clause list could not be reduced, and this is not the first round or nothing else is asked for. */
  predicate StopsEarly(gran: Granularity, r: Round, i: nat) {
    gran != LiteralsOnly && r.reduced == r.before && (i > 0 || gran == ClausesOnly)
  }

  predicate Settles(r: Round) { r.pass != [] && After(r) == r.reduced }

  ghost predicate RoundOk(test: Formula -> Outcome, vars: bool, gran: Granularity, r: Round, i: nat) {
    (if gran == LiteralsOnly then r.reduced == r.before else Minimised(test, vars, Whole(), r.before, r.reduced)) &&
    (r.pass == [] <==> StopsEarly(gran, r, i) || gran == ClausesOnly) &&
    (r.pass != [] ==> r.pass[0] == r.reduced && Pass(test, vars, r.pass))
  }

  /** Rounds follow each other until one stops early or settles. */
  ghost predicate History(test: Formula -> Outcome, vars: bool, gran: Granularity, start: Formula, rs: seq<Round>) {
    |rs| >= 1 && rs[0].before == start &&
    (forall i: nat :: i < |rs| ==> RoundOk(test, vars, gran, rs[i], i)) &&
    (forall i: nat :: i + 1 < |rs| ==> rs[i + 1].before == After(rs[i]) && !StopsEarly(gran, rs[i], i) && !Settles(rs[i])) &&
    (StopsEarly(gran, rs[|rs| - 1], |rs| - 1) || Settles(rs[|rs| - 1]))
  }

  function Result(rs: seq<Round>): Formula
    requires |rs| >= 1
  {
    After(rs[|rs| - 1])
  }

  function Settled(rs: seq<Round>): bool
    requires |rs| >= 1
  {
    Settles(rs[|rs| - 1])
  }

  /** Rounds made so far, none of which stopped early; the next one starts at `now`. */
  ghost predicate Going(test: Formula -> Outcome, vars: bool, gran: Granularity, start: Formula, rs: seq<Round>, now: Formula) {
    (if rs == [] then now == start else rs[0].before == start && now == Result(rs)) &&
    (forall i: nat :: i < |rs| ==> RoundOk(test, vars, gran, rs[i], i) && !StopsEarly(gran, rs[i], i)) &&
    (forall i: nat :: i + 1 < |rs| ==> rs[i + 1].before == After(rs[i]) && !Settles(rs[i]))
  }

  lemma GoOn(test: Formula -> Outcome, vars: bool, gran: Granularity, start: Formula, rs: seq<Round>, r: Round)
    requires Going(test, vars, gran, start, rs, r.before) && (rs == [] || !Settled(rs))
    requires RoundOk(test, vars, gran, r, |rs|)
    ensures !StopsEarly(gran, r, |rs|) ==> Going(test, vars, gran, start, rs + [r], After(r))
    ensures StopsEarly(gran, r, |rs|) ==> History(test, vars, gran, start, rs + [r]) && Result(rs + [r]) == After(r) && !Settled(rs + [r])
  {
    hide RoundOk, After;
    var more := rs + [r];
    forall i: nat | i < |more| ensures RoundOk(test, vars, gran, more[i], i) && (i < |rs| ==> !StopsEarly(gran, more[i], i)) {
      if i < |rs| {
        assert RoundOk(test, vars, gran, rs[i], i);
      }
    }
    forall i: nat | i + 1 < |more| ensures more[i + 1].before == After(more[i]) && !Settles(more[i]) {
      if i + 1 < |rs| {
        assert rs[i + 1].before == After(rs[i]) && !Settles(rs[i]);
      }
    }
    if StopsEarly(gran, r, |rs|) {
      EarlyHasNoPass(test, vars, gran, r, |rs|);
    }
  }

  lemma EarlyHasNoPass(test: Formula -> Outcome, vars: bool, gran: Granularity, r: Round, i: nat)
    requires RoundOk(test, vars, gran, r, i) && StopsEarly(gran, r, i)
    ensures r.pass == []
  {
  }

  lemma Done(test: Formula -> Outcome, vars: bool, gran: Granularity, start: Formula, rs: seq<Round>, now: Formula)
    requires Going(test, vars, gran, start, rs, now) && rs != [] && Settled(rs)
    ensures History(test, vars, gran, start, rs) && Result(rs) == now
  {
    hide RoundOk, After;
  }

  // ---- passes ----

  /** `g` is `f` with literals left out of clauses. */
  ghost predicate Thinner(g: Formula, f: Formula) { |g| == |f| && forall i: nat :: i < |f| ==> Sublist(g[i], f[i]) }

  lemma ThinnerSelf(f: Formula)
    ensures Thinner(f, f)
  {
    forall i: nat | i < |f| ensures Sublist(f[i], f[i]) {
      SublistSelf(f[i]);
    }
  }

  lemma ThinnerTransitive(h: Formula, g: Formula, f: Formula)
    requires Thinner(h, g) && Thinner(g, f)
    ensures Thinner(h, f)
  {
    forall i: nat | i < |f| ensures Sublist(h[i], f[i]) {
      SublistTransitive(h[i], g[i], f[i]);
    }
  }

  /** Between two positions of a pass clauses only lose literals, and clauses already treated stay. */
  lemma {:induction false} PassThins(test: Formula -> Outcome, vars: bool, fs: seq<Formula>, i: nat, j: nat)
    requires Pass(test, vars, fs) && i <= j < |fs|
    ensures Thinner(fs[j], fs[i]) && |fs[j]| == |fs[0]|
    ensures forall k: nat :: k < i && k < |fs[0]| ==> fs[j][k] == fs[i][k]
  {
    hide Minimised;
    if i == j {
      ThinnerSelf(fs[i]);
      if i > 0 {
        PassThins(test, vars, fs, 0, i);
      }
    } else {
      PassThins(test, vars, fs, i, j - 1);
      assert PassStep(test, vars, fs[j - 1], j - 1, fs[j - 1 + 1]);
      StepThins(test, vars, fs[j - 1], j - 1, fs[j]);
      ThinnerTransitive(fs[j], fs[j - 1], fs[i]);
    }
  }

  lemma StepThins(test: Formula -> Outcome, vars: bool, f: Formula, i: nat, g: Formula)
    requires PassStep(test, vars, f, i, g)
    ensures Thinner(g, f) && forall k: nat :: k < |f| && k != i ==> g[k] == f[k]
  {
    forall k: nat | k < |f| ensures Sublist(g[k], f[k]) {
      if k != i {
        SublistSelf(f[k]);
      }
    }
  }

  /** The formula at which clause `i` was found minimal, and the same clause in the result. */
  lemma PassMinimal(test: Formula -> Outcome, fs: seq<Formula>, i: nat)
    requires Pass(test, true, fs) && i < |fs[0]|
    ensures |fs[i + 1]| == |fs[0]| && MinimalClause(test, fs[i + 1], i)
    ensures |fs[|fs| - 1]| == |fs[0]| && fs[|fs| - 1][i] == fs[i + 1][i] && Thinner(fs[|fs| - 1], fs[i + 1])
  {
    hide Thinner, OneMinimal, Single;
    PassThins(test, true, fs, i + 1, |fs| - 1);
    PassThins(test, true, fs, 0, i + 1);
    PassThins(test, true, fs, 0, i);
    assert PassStep(test, true, fs[i], i, fs[i + 1]);
    StepMinimal(test, fs[i], i, fs[i + 1]);
  }

  /** Minimality of a clause does not depend on what the clause was before. */
  lemma StepMinimal(test: Formula -> Outcome, f: Formula, i: nat, g: Formula)
    requires PassStep(test, true, f, i, g)
    ensures MinimalClause(test, g, i)
  {
    if |g[i]| >= 2 {
      forall k: nat {:trigger Without(g[i], k)} | k < |g[i]| ensures test(Single(g, i).config(Without(g[i], k))) != Failed {
        SingleConfig(f, i, Without(g[i], k));
        SingleConfig(g, i, Without(g[i], k));
        assert f[i := Without(g[i], k)] == g[i := Without(g[i], k)];
      }
    }
  }

  // ---- when the result is minimal ----

  /** Putting literals back into the clauses of a failing formula keeps it failing. */
  ghost predicate Monotone(test: Formula -> Outcome) {
    forall f: Formula, g: Formula :: Thinner(f, g) && test(f) == Failed ==> test(g) == Failed
  }

  /** Leaving out literal `k` of clause `i` was refused at `f` and would be accepted at the result. */
  ghost predicate Flips(test: Formula -> Outcome, f: Formula, result: Formula, i: nat, k: nat) {
    i < |f| == |result| && k < |result[i]| && |result[i]| >= 2 && f[i] == result[i] && f != result &&
    test(f[i := Without(result[i], k)]) != Failed && test(result[i := Without(result[i], k)]) == Failed
  }

  /** Clause `i` was found minimal at a formula whose later changes make one of its literals superfluous. */
  ghost predicate Overtaken(test: Formula -> Outcome, f: Formula, result: Formula, i: nat) {
    exists k: nat :: Flips(test, f, result, i, k)
  }

  ghost predicate PassFlips(test: Formula -> Outcome, fs: seq<Formula>) {
    exists i: nat :: FlipsAt(test, fs, i)
  }

  ghost predicate FlipsAt(test: Formula -> Outcome, fs: seq<Formula>, i: nat) {
    i + 1 < |fs| && Overtaken(test, fs[i + 1], fs[|fs| - 1], i)
  }

  /** The result of a pass is minimal clause by clause exactly when no refusal was overtaken by a later change. */
  lemma PassMinimality(test: Formula -> Outcome, fs: seq<Formula>)
    requires Pass(test, true, fs)
    ensures |fs| >= 1 && |fs[|fs| - 1]| == |fs[0]|
    ensures ClausesMinimal(test, fs[|fs| - 1], |fs[0]|) <==> !PassFlips(test, fs)
  {
    hide Pass, Thinner, PassStep, Overtaken, MinimalClause;
    PassSize(test, true, fs);
    var result := fs[|fs| - 1];
    forall i: nat | i < |fs[0]| ensures MinimalClause(test, result, i) <==> !FlipsAt(test, fs, i) {
      PassMinimal(test, fs, i);
      ClauseMinimality(test, fs[i + 1], result, i);
    }
  }

  lemma PassSize(test: Formula -> Outcome, vars: bool, fs: seq<Formula>)
    requires Pass(test, vars, fs)
    ensures |fs| >= 1 && |fs| == |fs[0]| + 1 && |fs[|fs| - 1]| == |fs[0]|
  {
    PassThins(test, vars, fs, 0, |fs| - 1);
  }

  lemma ClauseMinimality(test: Formula -> Outcome, f: Formula, result: Formula, i: nat)
    requires i < |f| == |result| && f[i] == result[i] && MinimalClause(test, f, i)
    ensures MinimalClause(test, result, i) <==> !Overtaken(test, f, result, i)
  {
    forall k: nat | k < |result[i]|
      ensures Single(f, i).config(Without(f[i], k)) == f[i := Without(result[i], k)]
      ensures Single(result, i).config(Without(result[i], k)) == result[i := Without(result[i], k)]
    {
      SingleConfig(f, i, Without(f[i], k));
      SingleConfig(result, i, Without(result[i], k));
    }
    if MinimalClause(test, result, i) {
      forall k: nat ensures !Flips(test, f, result, i, k) {
        if k < |result[i]| && |result[i]| >= 2 {
          assert test(Single(result, i).config(Without(result[i], k))) != Failed;
        }
      }
    } else {
      var k: nat :| k < |result[i]| && test(Single(result, i).config(Without(result[i], k))) == Failed;
      assert test(Single(f, i).config(Without(f[i], k))) != Failed;
      assert Flips(test, f, result, i, k);
    }
  }

  /** With a monotone test later changes never overtake a refusal. */
  lemma MonotoneNoFlip(test: Formula -> Outcome, fs: seq<Formula>)
    requires Pass(test, true, fs) && Monotone(test)
    ensures !PassFlips(test, fs)
  {
    hide Pass, MinimalClause;
    PassSize(test, true, fs);
    forall i: nat | i < |fs[0]| ensures !FlipsAt(test, fs, i) {
      PassMinimal(test, fs, i);
      MonotoneClause(test, fs[i + 1], fs[|fs| - 1], i);
    }
  }

  lemma MonotoneClause(test: Formula -> Outcome, f: Formula, result: Formula, i: nat)
    requires Thinner(result, f) && Monotone(test)
    ensures !Overtaken(test, f, result, i)
  {
    forall k: nat ensures !Flips(test, f, result, i, k) {
      if i < |f| && k < |result[i]| {
        var c := Without(result[i], k);
        var g, h := result[i := c], f[i := c];
        forall j: nat | j < |h| ensures Sublist(g[j], h[j]) {
          if j == i {
            SublistSelf(c);
          }
        }
        assert Thinner(g, h);
      }
    }
  }

  /** The pass whose result a run returns. */
  function LastPass(rs: seq<Round>): seq<Formula>
    requires |rs| >= 1
  {
    if rs[|rs| - 1].pass != [] || |rs| == 1 then rs[|rs| - 1].pass else rs[|rs| - 2].pass
  }

  /** Unless only the clause list is reduced, a run returns the end of a pass, at either end. */
  lemma ResultOfPass(test: Formula -> Outcome, vars: bool, gran: Granularity, start: Formula, rs: seq<Round>)
    requires History(test, vars, gran, start, rs) && gran != ClausesOnly
    ensures var fs := LastPass(rs); Pass(test, vars, fs) && fs[|fs| - 1] == Result(rs)
  {
    hide Pass, Minimised;
    var n := |rs| - 1;
    assert RoundOk(test, vars, gran, rs[n], n);
    if rs[n].pass == [] {
      assert RoundOk(test, vars, gran, rs[n - 1], n - 1);
      assert rs[n - 1 + 1].before == After(rs[n - 1]) && !StopsEarly(gran, rs[n - 1], n - 1);
    }
  }

  /** Every clause of the result is minimal exactly when the last pass was not overtaken; it is if the rounds settled. */
  lemma ResultMinimality(test: Formula -> Outcome, gran: Granularity, start: Formula, rs: seq<Round>)
    requires History(test, true, gran, start, rs) && gran != ClausesOnly
    ensures Pass(test, true, LastPass(rs))
    ensures ClausesMinimal(test, Result(rs), |Result(rs)|) <==> !PassFlips(test, LastPass(rs))
    ensures Settled(rs) ==> ClausesMinimal(test, Result(rs), |Result(rs)|)
  {
    hide Pass, RoundOk, PassFlips, ClausesMinimal;
    ResultOfPass(test, true, gran, start, rs);
    var fs := LastPass(rs);
    PassSize(test, true, fs);
    PassMinimality(test, fs);
    if Settled(rs) {
      LastRound(test, gran, start, rs);
      SettledNoFlip(test, fs);
    }
  }

  lemma LastRound(test: Formula -> Outcome, gran: Granularity, start: Formula, rs: seq<Round>)
    requires History(test, true, gran, start, rs) && Settled(rs)
    ensures var fs := LastPass(rs); fs != [] && fs[|fs| - 1] == fs[0]
  {
    assert RoundOk(test, true, gran, rs[|rs| - 1], |rs| - 1);
  }

  /** A pass that returns what it was given changed nothing on the way. */
  lemma SettledNoFlip(test: Formula -> Outcome, fs: seq<Formula>)
    requires Pass(test, true, fs) && fs[|fs| - 1] == fs[0]
    ensures !PassFlips(test, fs)
  {
    forall i: nat | i + 1 < |fs| ensures !FlipsAt(test, fs, i) {
      PassThins(test, true, fs, 0, i + 1);
      PassThins(test, true, fs, i + 1, |fs| - 1);
      ThinnerAntisymmetric(fs[0], fs[i + 1]);
    }
  }

  lemma ThinnerAntisymmetric(f: Formula, g: Formula)
    requires Thinner(f, g) && Thinner(g, f)
    ensures f == g
  {
    forall i: nat | i < |f| ensures f[i] == g[i] {
      SublistLength(f[i], g[i]);
      SublistLength(g[i], f[i]);
    }
  }

  /** With a monotone test every clause of the result is minimal, whichever way the rounds end. */
  lemma MonotoneMinimal(test: Formula -> Outcome, gran: Granularity, start: Formula, rs: seq<Round>)
    requires History(test, true, gran, start, rs) && gran != ClausesOnly && Monotone(test)
    ensures ClausesMinimal(test, Result(rs), |Result(rs)|)
  {
    hide Pass, RoundOk, PassFlips, ClausesMinimal, Monotone;
    ResultMinimality(test, gran, start, rs);
    MonotoneNoFlip(test, LastPass(rs));
  }

  /** The clause list of the result cannot be reduced. */
  lemma ResultReduced(test: Formula -> Outcome, vars: bool, gran: Granularity, start: Formula, rs: seq<Round>)
    requires History(test, vars, gran, start, rs) && gran != LiteralsOnly && vars && |Result(rs)| >= 2
    ensures OneMinimal(test, Whole(), Result(rs))
  {
    hide Pass, OneMinimal, Sublist;
    assert RoundOk(test, vars, gran, rs[|rs| - 1], |rs| - 1);
  }

  lemma RunEnds(test: Formula -> Outcome, vars: bool, gran: Granularity, start: Formula, rs: seq<Round>)
    requires History(test, vars, gran, start, rs)
    ensures gran != LiteralsOnly && vars && |Result(rs)| >= 2 ==> OneMinimal(test, Whole(), Result(rs))
    ensures gran == LiteralsOnly ==> Settled(rs)
    ensures gran != ClausesOnly && vars ==>
      (ClausesMinimal(test, Result(rs), |Result(rs)|) <==> !PassFlips(test, LastPass(rs)))
    ensures gran != ClausesOnly && vars && (Settled(rs) || Monotone(test)) ==> ClausesMinimal(test, Result(rs), |Result(rs)|)
  {
    hide RoundOk, OneMinimal, PassFlips, ClausesMinimal, Monotone;
    if gran != LiteralsOnly && vars && |Result(rs)| >= 2 {
      ResultReduced(test, vars, gran, start, rs);
    }
    if gran != ClausesOnly && vars {
      ResultMinimality(test, gran, start, rs);
      if Monotone(test) {
        MonotoneMinimal(test, gran, start, rs);
      }
    }
  }

  // ---- a run that stops too early ----

  function Early0(): Formula { [[1, 2], [3, 4]] }
  function Early1(): Formula { [[1, 2], [3]] }
  function Early2(): Formula { [[2], [3]] }

  /** Fails on three formulas only; the last one needs literal 4 gone before literal 1. */
  function EarlyTest(f: Formula): Outcome { if f == Early0() || f == Early1() || f == Early2() then Failed else Passed }

  lemma EarlyList(f: Formula, g: Formula)
    requires Minimised(EarlyTest, true, Whole(), f, g) && |f| == 2
    ensures g == f
  {
  }

  lemma EarlyFirst(g: Formula)
    requires PassStep(EarlyTest, true, Early0(), 0, g)
    ensures g == Early0()
  {
    SingleConfig(Early0(), 0, g[0]);
    assert g[1] == [3, 4];
  }

  lemma EarlySecond(g: Formula)
    requires PassStep(EarlyTest, true, Early0(), 1, g)
    ensures g == Early1()
  {
    var whole := [3, 4];
    SingleConfig(Early0(), 1, g[1]);
    SingleConfig(Early0(), 1, Without(whole, 1));
    assert g[0] == [1, 2] && Without(whole, 1) == [3];
    assert Single(Early0(), 1).config(Without(whole, 1)) == Early1();
    assert !OneMinimal(EarlyTest, Single(Early0(), 1), whole);
  }

  lemma EarlyRound(rs: seq<Round>)
    requires History(EarlyTest, true, Both, Early0(), rs)
    ensures rs[0].pass != [] && rs[0].pass == [Early0(), Early0(), Early1()]
  {
    hide Minimised, PassStep;
    assert RoundOk(EarlyTest, true, Both, rs[0], 0);
    EarlyList(Early0(), rs[0].reduced);
    var fs := rs[0].pass;
    assert PassStep(EarlyTest, true, fs[0], 0, fs[0 + 1]);
    EarlyFirst(fs[1]);
    assert PassStep(EarlyTest, true, fs[1], 1, fs[1 + 1]);
    EarlySecond(fs[2]);
  }

  /** From that formula every run ends after a pass that shortens the second clause only, and literal 1 is left. */
  lemma StopsTooEarly(rs: seq<Round>)
    requires History(EarlyTest, true, Both, Early0(), rs)
    ensures Result(rs) == Early1() && !Settled(rs)
    ensures !MinimalClause(EarlyTest, Result(rs), 0) && PassFlips(EarlyTest, LastPass(rs))
  {
    hide Minimised, Pass, MinimalClause, PassFlips;
    EarlyRound(rs);
    assert RoundOk(EarlyTest, true, Both, rs[0], 0);
    assert After(rs[0]) == Early1() && rs[0].reduced == Early0();
    assert |rs| >= 2 && rs[0 + 1].before == After(rs[0]);
    assert RoundOk(EarlyTest, true, Both, rs[1], 1);
    EarlyList(Early1(), rs[1].reduced);
    assert StopsEarly(Both, rs[1], 1);
    assert |rs| == 2;
    LiteralLeft();
    ResultMinimality(EarlyTest, Both, Early0(), rs);
  }

  lemma LiteralLeft()
    ensures !MinimalClause(EarlyTest, Early1(), 0)
  {
    var clause := [1, 2];
    SingleConfig(Early1(), 0, Without(clause, 0));
    assert Without(clause, 0) == [2];
    assert Single(Early1(), 0).config(Without(clause, 0)) == Early2();
  }
}
