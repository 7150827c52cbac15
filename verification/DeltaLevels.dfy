/** The levels of one minimisation: the list, the number of parts it is cut into, and which test of the level fails. */
module DeltaLevels {
  import opened DeltaLists
  import opened DeltaHistory

  /** Part `i` of `n` alone, or everything but that part. */
  function Tried<T>(s: seq<T>, n: nat, i: nat, complement: bool): seq<T>
    requires 0 < n <= |s| && i < n
  {
    CutStep(|s|, n, i);
    if complement then s[..Cut(|s|, n, i)] + s[Cut(|s|, n, i + 1)..] else s[Cut(|s|, n, i)..Cut(|s|, n, i + 1)]
  }

  /** None of the first `k` tests fails. */
  ghost predicate Refused<T(!new)>(test: Formula -> Outcome, view: View<T>, s: seq<T>, n: nat, complement: bool, k: nat)
    requires 0 < n <= |s| && k <= n
  {
    forall i: nat {:trigger Tried(s, n, i, complement)} :: i < k ==> test(view.config(Tried(s, n, i, complement))) != Failed
  }

  ghost predicate First<T(!new)>(test: Formula -> Outcome, view: View<T>, s: seq<T>, n: nat, complement: bool, i: nat)
    requires 0 < n <= |s| && i < n
  {
    Refused(test, view, s, n, complement, i) && test(view.config(Tried(s, n, i, complement))) == Failed
  }

  datatype Found = Nothing | Alone(part: nat) | Left(part: nat)
  datatype Level<T> = Level(list: seq<T>, n: nat, found: Found)

  /** The parts come before their complements unless the mode is simple; without variables nothing is tested. */
  ghost predicate LevelOk<T(!new)>(test: Formula -> Outcome, view: View<T>, vars: bool, simple: bool, l: Level<T>) {
    2 <= l.n <= |l.list| &&
    match l.found
    case Alone(i) => vars && !simple && i < l.n && First(test, view, l.list, l.n, false, i)
    case Left(i) => vars && i < l.n && First(test, view, l.list, l.n, true, i) && (simple || Refused(test, view, l.list, l.n, false, l.n))
    case Nothing => vars ==> Refused(test, view, l.list, l.n, true, l.n) && (simple || Refused(test, view, l.list, l.n, false, l.n))
  }

  ghost predicate Shaped<T>(l: Level<T>) { 2 <= l.n <= |l.list| && (l.found.Nothing? || l.found.part < l.n) }

  ghost function NextList<T>(l: Level<T>): seq<T>
    requires Shaped(l)
  {
    if l.found.Nothing? then l.list else Tried(l.list, l.n, l.found.part, l.found.Left?)
  }

  /** The last level: single items, or two halves where the search coarsens. */
  predicate Stops<T>(inverse: bool, l: Level<T>) { l.found.Nothing? && l.n == if inverse then 2 else |l.list| }

  function Max(a: int, b: int): int { if a < b then b else a }

  function Min(a: int, b: int): int { if a < b then a else b }

  predicate NextSize<T>(inverse: bool, l: Level<T>, length: nat, n: nat) {
    match l.found
    case Nothing =>
      if inverse then l.n > 0 && n == Max(length / (length / l.n + 1), 2)
      else n == Min(2 * l.n, length)
    case Alone(_) => n == if inverse then length else 2
    case Left(_) => n == if inverse then length else Max(l.n - 1, 2)
  }

  ghost predicate Follows<T>(inverse: bool, l: Level<T>, m: Level<T>) {
    Shaped(l) && !Stops(inverse, l) && m.list == NextList(l) && NextSize(inverse, l, |m.list|, m.n)
  }

  ghost predicate Levels<T(!new)>(test: Formula -> Outcome, view: View<T>, vars: bool, simple: bool, inverse: bool, orig: seq<T>, ls: seq<Level<T>>) {
    (ls != [] ==> ls[0].list == orig && ls[0].n == if inverse then |orig| else 2) &&
    (forall k: nat {:trigger ls[k]} :: k < |ls| ==> LevelOk(test, view, vars, simple, ls[k])) &&
    (forall k: nat, j: nat {:trigger ls[k], ls[j]} :: j == k + 1 && j < |ls| ==> Follows(inverse, ls[k], ls[j]))
  }

  ghost predicate Reached<T(!new)>(orig: seq<T>, ls: seq<Level<T>>, s: seq<T>) {
    if ls == [] then s == orig else Shaped(ls[|ls| - 1]) && s == NextList(ls[|ls| - 1])
  }

  ghost predicate Ended<T(!new)>(inverse: bool, ls: seq<Level<T>>, s: seq<T>) {
    |s| < 2 || (ls != [] && Stops(inverse, ls[|ls| - 1]))
  }

  ghost predicate NoneAlone<T(!new)>(test: Formula -> Outcome, view: View<T>, s: seq<T>) {
    forall i: nat :: i < |s| ==> test(view.config([s[i]])) != Failed
  }

  /** What the next level is run on. */
  ghost predicate Ahead<T(!new)>(inverse: bool, orig: seq<T>, ls: seq<Level<T>>, s: seq<T>, n: nat) {
    if ls == [] then s == orig && n == (if inverse then |orig| else 2)
    else Shaped(ls[|ls| - 1]) && !Stops(inverse, ls[|ls| - 1]) && s == NextList(ls[|ls| - 1]) && NextSize(inverse, ls[|ls| - 1], |s|, n)
  }

  lemma NoLevels<T(!new)>(test: Formula -> Outcome, view: View<T>, vars: bool, simple: bool, inverse: bool, orig: seq<T>, n: nat)
    requires n == if inverse then |orig| else 2
    ensures Levels(test, view, vars, simple, inverse, orig, []) && Ahead(inverse, orig, [], orig, n)
  {
  }

  lemma SizeAhead<T(!new)>(test: Formula -> Outcome, view: View<T>, vars: bool, simple: bool, inverse: bool, orig: seq<T>,
      ls: seq<Level<T>>, s: seq<T>, n: nat)
    requires Levels(test, view, vars, simple, inverse, orig, ls) && Ahead(inverse, orig, ls, s, n) && |s| >= 2
    ensures 2 <= n <= |s|
  {
    hide Refused, First;
    if ls != [] {
      var l := ls[|ls| - 1];
      assert LevelOk(test, view, vars, simple, l);
      match l.found
      case Nothing =>
        if inverse {
          Quotient(|s|, l.n);
        }
      case Alone(i) =>
      case Left(i) =>
        RestLength(l.list, l.n, i);
    }
  }

  lemma Quotient(len: nat, n: nat)
    requires 0 < n <= len
    ensures len / (len / n + 1) <= len
  {
    var r, m := len / (len / n + 1), len / n + 1;
    assert len == r * m + len % m;
    assert r * m >= r * 1 by { Scaled(m, 1, r); }
  }

  lemma Rest(len: nat, n: nat)
    requires 0 < n <= len
    ensures len - len / n - (if len % n > 0 then 1 else 0) >= n - 1
  {
    var q := len / n;
    assert len == n * q + len % n;
    assert (n - 1) * (q - 1) == n * q - q - (n - 1);
    Grown(n - 1, q - 1);
  }

  lemma Grown(a: int, b: int)
    requires a >= 0 && b >= 0
    ensures a * b >= 0
  {
  }

  lemma RestLength<T>(s: seq<T>, n: nat, i: nat)
    requires 0 < n <= |s| && i < n
    ensures |Tried(s, n, i, true)| >= n - 1
  {
    CutStep(|s|, n, i);
    Rest(|s|, n);
  }

  lemma LevelMade<T(!new)>(test: Formula -> Outcome, view: View<T>, vars: bool, simple: bool, l: Level<T>)
    requires Shaped(l)
    requires match l.found
      case Alone(i) => vars && !simple && First(test, view, l.list, l.n, false, i)
      case Left(i) => vars && First(test, view, l.list, l.n, true, i)
      case Nothing => vars ==> Refused(test, view, l.list, l.n, true, l.n)
    requires vars && !l.found.Alone? && !simple ==> Refused(test, view, l.list, l.n, false, l.n)
    ensures LevelOk(test, view, vars, simple, l)
  {
  }

  lemma AddLevel<T(!new)>(test: Formula -> Outcome, view: View<T>, vars: bool, simple: bool, inverse: bool, orig: seq<T>,
      ls: seq<Level<T>>, l: Level<T>)
    requires Levels(test, view, vars, simple, inverse, orig, ls) && Ahead(inverse, orig, ls, l.list, l.n) && LevelOk(test, view, vars, simple, l)
    ensures Levels(test, view, vars, simple, inverse, orig, ls + [l])
  {
    hide LevelOk, NextList, Shaped, NextSize, Stops;
    var more := ls + [l];
    forall k: nat {:trigger more[k]} | k < |more| ensures LevelOk(test, view, vars, simple, more[k]) {
      assert k < |ls| ==> more[k] == ls[k];
    }
    forall k: nat, j: nat {:trigger more[k], more[j]} | j == k + 1 && j < |more| ensures Follows(inverse, more[k], more[j]) {
      assert more[k] == ls[k] && (j < |ls| ==> more[j] == ls[j]);
    }
  }

  lemma AheadOfLevel<T(!new)>(inverse: bool, orig: seq<T>, ls: seq<Level<T>>, s: seq<T>, n: nat)
    requires ls != [] && Shaped(ls[|ls| - 1]) && !Stops(inverse, ls[|ls| - 1])
    requires s == NextList(ls[|ls| - 1]) && NextSize(inverse, ls[|ls| - 1], |s|, n)
    ensures Ahead(inverse, orig, ls, s, n)
  {
  }

  lemma ListReached<T(!new)>(inverse: bool, orig: seq<T>, ls: seq<Level<T>>, s: seq<T>, n: nat)
    requires Ahead(inverse, orig, ls, s, n) || (ls != [] && Shaped(ls[|ls| - 1]) && s == NextList(ls[|ls| - 1]))
    ensures Reached(orig, ls, s)
  {
  }

  lemma TriedIsCandidate<T>(s: seq<T>, n: nat, parts: seq<seq<T>>, i: nat, complement: bool)
    requires IsSplit(s, n, parts) && n <= |s| && i < n
    ensures Candidate(parts, i, complement) == Tried(s, n, i, complement)
  {
    OthersGap(s, n, parts, i);
    assert IsPart(s, n, i, parts[i]);
  }

  /** At the finest granularity the parts are the single items, and the complements the lists with one item removed. */
  lemma FinestTried<T>(s: seq<T>, i: nat)
    requires i < |s|
    ensures Tried(s, |s|, i, true) == Without(s, i) && Tried(s, |s|, i, false) == [s[i]]
  {
    SingletonCut(|s|, i);
    SingletonCut(|s|, i + 1);
  }

  /** A level of single items without a failing test leaves no item to remove, and none that fails alone. */
  lemma FinestLevel<T(!new)>(test: Formula -> Outcome, view: View<T>, simple: bool, l: Level<T>)
    requires LevelOk(test, view, true, simple, l) && l.found.Nothing? && l.n == |l.list|
    ensures OneMinimal(test, view, l.list)
    ensures !simple ==> NoneAlone(test, view, l.list)
  {
    hide Tried;
    var s := l.list;
    forall i: nat {:trigger Without(s, i)} | i < |s| ensures test(view.config(Without(s, i))) != Failed {
      FinestTried(s, i);
    }
    forall i: nat | i < |s| && !simple ensures test(view.config([s[i]])) != Failed {
      FinestTried(s, i);
    }
  }

  /** Where the search coarsens, every level without a failing test follows one of single items on the same list. */
  lemma {:induction false} CoarseMinimal<T(!new)>(test: Formula -> Outcome, view: View<T>, simple: bool, orig: seq<T>, ls: seq<Level<T>>, k: nat)
    requires Levels(test, view, true, simple, true, orig, ls) && k < |ls| && ls[k].found.Nothing?
    ensures OneMinimal(test, view, ls[k].list)
    ensures !simple ==> NoneAlone(test, view, ls[k].list)
  {
    hide OneMinimal, NoneAlone;
    assert LevelOk(test, view, true, simple, ls[k]);
    if ls[k].n == |ls[k].list| {
      FinestLevel(test, view, simple, ls[k]);
    } else {
      assert Follows(true, ls[k - 1], ls[k]);
      CoarseMinimal(test, view, simple, orig, ls, k - 1);
    }
  }

  lemma LevelsMinimal<T(!new)>(test: Formula -> Outcome, view: View<T>, simple: bool, inverse: bool, orig: seq<T>, ls: seq<Level<T>>, s: seq<T>)
    requires Levels(test, view, true, simple, inverse, orig, ls) && Reached(orig, ls, s) && Ended(inverse, ls, s) && |s| >= 2
    ensures OneMinimal(test, view, s)
    ensures !simple ==> NoneAlone(test, view, s)
  {
    hide OneMinimal, NoneAlone;
    var k := |ls| - 1;
    assert LevelOk(test, view, true, simple, ls[k]);
    if inverse {
      CoarseMinimal(test, view, simple, orig, ls, k);
    } else {
      FinestLevel(test, view, simple, ls[k]);
    }
  }

  ghost function Slack<T>(l: Level<T>): int { 2 * |l.list| - l.n }

  lemma Ceiling(len: nat, n: nat, i: nat)
    requires 2 <= n <= len && i < n
    ensures 2 * (Cut(len, n, i + 1) - Cut(len, n, i)) <= len + 1
  {
    CutStep(len, n, i);
    var q := len / n;
    assert len == n * q + len % n;
    assert n * q >= 2 * q by { Scaled(n, 2, q); }
  }

  lemma SlackFalls<T(!new)>(test: Formula -> Outcome, view: View<T>, vars: bool, simple: bool, l: Level<T>, m: Level<T>)
    requires LevelOk(test, view, vars, simple, l) && Follows(false, l, m) && LevelOk(test, view, vars, simple, m)
    ensures Slack(m) < Slack(l)
  {
    hide Refused, First;
    if !l.found.Nothing? {
      CutStep(|l.list|, l.n, l.found.part);
      Ceiling(|l.list|, l.n, l.found.part);
    }
  }

  /** Where the search refines, there are fewer than twice as many levels as items. */
  lemma {:induction false} LevelBound<T(!new)>(test: Formula -> Outcome, view: View<T>, vars: bool, simple: bool, orig: seq<T>, ls: seq<Level<T>>, k: nat)
    requires Levels(test, view, vars, simple, false, orig, ls) && k < |ls|
    ensures k + Slack(ls[k]) <= 2 * |orig| - 2 && k < 2 * |orig| - 2
  {
    assert LevelOk(test, view, vars, simple, ls[k]);
    if k > 0 {
      LevelBound(test, view, vars, simple, orig, ls, k - 1);
      SlackFalls(test, view, vars, simple, ls[k - 1], ls[k]);
    }
  }
}
