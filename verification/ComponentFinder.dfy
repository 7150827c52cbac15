/** The component search of the formula manager: a union-find over variables and clauses. */
module ComponentFinder {
  import opened FiniteSets
  import opened Cnf
  import opened Residual
  import opened Components

  predicate Mentions(c: Clause, x: Var) {
    exists i :: 0 <= i < |c| && c[i].v == x
  }

  /** No open clause contains a literal of `v`. */
  predicate IsFreeVariable(f: Formula, trail: Asg, v: Var) {
    forall c :: c in f && Mentions(c, v) ==> SatClause(c, trail)
  }

  lemma MentionsTouches(c: Clause, v: Var)
    ensures Mentions(c, v) <==> Touches(c, {v})
  {
    if Mentions(c, v) {
      var i :| 0 <= i < |c| && c[i].v == v;
      assert c[i] in c;
    }
  }

  lemma FreeVariableIsFree(f: Formula, trail: Asg, v: Var)
    ensures IsFreeVariable(f, trail, v) <==> FreeIn(f, trail, v)
  {
    hide Mentions, Touches;
    forall c: Clause
      ensures Mentions(c, v) <==> Touches(c, {v})
    {
      MentionsTouches(c, v);
    }
  }

  function OpenVars(setOfVar: seq<Var>, trail: Asg): set<Var> {
    set v | v in setOfVar && v !in trail
  }

  // ---------- Linked variables ----------

  /** Clause `idx` is open and mentions `x`. */
  predicate Occurs(f: Formula, trail: Asg, idx: nat, x: Var) {
    idx < |f| && !SatClause(f[idx], trail) && Mentions(f[idx], x)
  }

  /** No open clause leads out of `s` to another variable of `u`. */
  ghost predicate Saturated(f: Formula, trail: Asg, u: set<Var>, s: set<Var>) {
    forall idx: nat, x: Var, y: Var :: x in u && y in u && Occurs(f, trail, idx, x) && Occurs(f, trail, idx, y) ==>
      (x in s <==> y in s)
  }

  /** Two variables no saturated set tells apart: every split has to keep them together. */
  ghost predicate Linked(f: Formula, trail: Asg, u: set<Var>, x: Var, y: Var) {
    forall s: set<Var> :: Saturated(f, trail, u, s) ==> (x in s <==> y in s)
  }

  lemma LinkedThrough(f: Formula, trail: Asg, u: set<Var>, x: Var, y: Var, z: Var)
    requires Linked(f, trail, u, y, x) && Linked(f, trail, u, y, z)
    ensures Linked(f, trail, u, x, z)
  {
    hide Saturated;
  }

  lemma LinkedBy(f: Formula, trail: Asg, u: set<Var>, idx: nat, x: Var, y: Var)
    requires x in u && y in u && Occurs(f, trail, idx, x) && Occurs(f, trail, idx, y)
    ensures Linked(f, trail, u, x, y)
  {
    hide Occurs;
  }

  // ---------- The union-find forest ----------

  /** `rep` names the root of every variable; sizes grow towards the roots. */
  ghost predicate Forest(pa: seq<nat>, sz: seq<nat>, rep: map<Var, Var>) {
    forall x: Var {:trigger Node(pa, sz, rep, x)} :: x in rep ==> Node(pa, sz, rep, x)
  }

  ghost predicate Node(pa: seq<nat>, sz: seq<nat>, rep: map<Var, Var>, x: Var) {
    && x in rep && rep[x] in rep && rep[rep[x]] == rep[x]
    && x < |pa| && x < |sz| && pa[x] < |sz| && pa[x] in rep && rep[pa[x]] == rep[x]
    && (rep[x] == x <==> pa[x] == x)
    && (pa[x] != x ==> sz[x] < sz[pa[x]])
    && 1 <= sz[x]
  }

  /** Every class holds linked variables; only mentioned variables leave their initial class. */
  ghost predicate Classes(f: Formula, trail: Asg, sz: seq<nat>, rep: map<Var, Var>) {
    forall x: Var {:trigger rep[x]} :: x in rep ==> Member(f, trail, rep.Keys, sz, x, rep[x])
  }

  ghost predicate Member(f: Formula, trail: Asg, u: set<Var>, sz: seq<nat>, x: Var, r: Var) {
    && Linked(f, trail, u, x, r)
    && (x != r ==> !IsFreeVariable(f, trail, x) && !IsFreeVariable(f, trail, r))
    && (x < |sz| && sz[x] > 1 ==> !IsFreeVariable(f, trail, x))
  }

  /** A marked clause hangs below the class of the variable that marked it. */
  ghost predicate Owned(f: Formula, trail: Asg, n: nat, pa: seq<nat>, mk: seq<bool>, rep: map<Var, Var>, owner: map<nat, Var>) {
    && |mk| == |f| && |pa| == n + 1 + |f|
    && (forall x: Var :: x in rep ==> x <= n)
    && (forall idx: nat :: idx in owner <==> idx < |f| && mk[idx])
    && (forall idx: nat :: idx in owner ==>
        && owner[idx] in rep && Occurs(f, trail, idx, owner[idx])
        && pa[idx + n + 1] in rep && rep[pa[idx + n + 1]] == rep[owner[idx]])
  }

  /** Variable `v` shares the class of clause `idx`. */
  ghost predicate Joined(rep: map<Var, Var>, owner: map<nat, Var>, v: Var, idx: nat) {
    idx in owner && owner[idx] in rep && v in rep && rep[owner[idx]] == rep[v]
  }

  /** The classes of `rep` with the class of `a` moved to `b`. */
  ghost function Merged(rep: map<Var, Var>, a: Var, b: Var): (r: map<Var, Var>)
    ensures r.Keys == rep.Keys
  {
    map x | x in rep :: if rep[x] == a then b else rep[x]
  }

  lemma UnionForest(pa: seq<nat>, sz: seq<nat>, rep: map<Var, Var>, a: Var, b: Var)
    requires Forest(pa, sz, rep) && a in rep && b in rep && rep[a] == a && rep[b] == b && a != b
    requires a < |pa| && a < |sz| && b < |sz| && sz[a] <= sz[b]
    ensures Forest(pa[a := b], sz[b := sz[b] + sz[a]], Merged(rep, a, b))
  {
    hide Node;
    var pa', sz', rep' := pa[a := b], sz[b := sz[b] + sz[a]], Merged(rep, a, b);
    forall x: Var | x in rep'
      ensures Node(pa', sz', rep', x)
    {
      assert Node(pa, sz, rep, x) && Node(pa, sz, rep, a) && Node(pa, sz, rep, b);
      UnionNode(pa, sz, rep, a, b, x);
    }
  }

  lemma UnionNode(pa: seq<nat>, sz: seq<nat>, rep: map<Var, Var>, a: Var, b: Var, x: Var)
    requires Node(pa, sz, rep, x) && Node(pa, sz, rep, a) && Node(pa, sz, rep, b) && rep[a] == a && rep[b] == b && a != b
    requires sz[a] <= sz[b]
    ensures Node(pa[a := b], sz[b := sz[b] + sz[a]], Merged(rep, a, b), x)
  {
  }

  lemma GrowForest(pa: seq<nat>, sz: seq<nat>, rep: map<Var, Var>, r: Var, k: nat)
    requires Forest(pa, sz, rep) && r in rep && rep[r] == r && r < |sz| && k < |pa| && k !in rep
    ensures Forest(pa[k := r], sz[r := sz[r] + 1], rep)
  {
    hide Node;
    forall x: Var | x in rep
      ensures Node(pa[k := r], sz[r := sz[r] + 1], rep, x)
    {
      assert Node(pa, sz, rep, x) && Node(pa, sz, rep, r);
      GrowNode(pa, sz, rep, r, k, x);
    }
  }

  lemma GrowNode(pa: seq<nat>, sz: seq<nat>, rep: map<Var, Var>, r: Var, k: nat, x: Var)
    requires Node(pa, sz, rep, x) && Node(pa, sz, rep, r) && rep[r] == r && k < |pa| && k !in rep
    ensures Node(pa[k := r], sz[r := sz[r] + 1], rep, x)
  {
  }

  /** Path halving: a node skips its parent. */
  lemma HalveForest(pa: seq<nat>, sz: seq<nat>, rep: map<Var, Var>, x: Var)
    requires Forest(pa, sz, rep) && x in rep && x < |pa| && pa[x] != x && pa[x] < |pa|
    ensures pa[pa[x]] in rep && rep[pa[pa[x]]] == rep[x]
    ensures Forest(pa[x := pa[pa[x]]], sz, rep)
    ensures x < |sz| && pa[pa[x]] < |sz| && sz[x] < sz[pa[pa[x]]]
  {
    assert Node(pa, sz, rep, x) && Node(pa, sz, rep, pa[x]);
    hide Node;
    forall y: Var | y in rep
      ensures Node(pa[x := pa[pa[x]]], sz, rep, y)
    {
      assert Node(pa, sz, rep, y);
    }
  }

  lemma UnionClasses(f: Formula, trail: Asg, sz: seq<nat>, rep: map<Var, Var>, a: Var, b: Var)
    requires Classes(f, trail, sz, rep) && Linked(f, trail, rep.Keys, a, b) && a < |sz| && b < |sz|
    requires !IsFreeVariable(f, trail, a) && !IsFreeVariable(f, trail, b)
    ensures Merged(rep, a, b).Keys == rep.Keys
    ensures Classes(f, trail, sz[b := sz[b] + sz[a]], Merged(rep, a, b))
  {
    hide Member;
    var rep' := Merged(rep, a, b);
    assert rep'.Keys == rep.Keys;
    forall x: Var | x in rep
      ensures Member(f, trail, rep.Keys, sz[b := sz[b] + sz[a]], x, rep'[x])
    {
      UnionMember(f, trail, rep.Keys, sz, x, rep[x], a, b);
    }
  }

  lemma UnionMember(f: Formula, trail: Asg, u: set<Var>, sz: seq<nat>, x: Var, r: Var, a: Var, b: Var)
    requires Member(f, trail, u, sz, x, r) && Linked(f, trail, u, a, b) && a < |sz| && b < |sz|
    requires !IsFreeVariable(f, trail, a) && !IsFreeVariable(f, trail, b)
    ensures Member(f, trail, u, sz[b := sz[b] + sz[a]], x, if r == a then b else r)
  {
    hide Linked, IsFreeVariable;
    if r == a {
      LinkedFlip(f, trail, u, x, a);
      LinkedThrough(f, trail, u, x, a, b);
    }
  }

  lemma LinkedFlip(f: Formula, trail: Asg, u: set<Var>, x: Var, y: Var)
    requires Linked(f, trail, u, x, y)
    ensures Linked(f, trail, u, y, x)
  {
    hide Saturated;
  }

  lemma UnionOwned(f: Formula, trail: Asg, n: nat, pa: seq<nat>, mk: seq<bool>, rep: map<Var, Var>, owner: map<nat, Var>, a: Var, b: Var)
    requires Owned(f, trail, n, pa, mk, rep, owner) && a in rep && b in rep
    ensures Owned(f, trail, n, pa[a := b], mk, Merged(rep, a, b), owner)
    ensures forall v: Var, idx: nat :: Joined(rep, owner, v, idx) ==> Joined(Merged(rep, a, b), owner, v, idx)
  {
    hide Occurs;
  }

  lemma MarkOwned(f: Formula, trail: Asg, n: nat, pa: seq<nat>, mk: seq<bool>, rep: map<Var, Var>, owner: map<nat, Var>, idx: nat, v: Var)
    requires Owned(f, trail, n, pa, mk, rep, owner) && v in rep && rep[v] in rep && rep[rep[v]] == rep[v]
    requires Occurs(f, trail, idx, v) && idx < |f| && !mk[idx]
    ensures Owned(f, trail, n, pa[idx + n + 1 := rep[v]], mk[idx := true], rep, owner[idx := v])
    ensures forall w: Var, i: nat :: Joined(rep, owner, w, i) ==> Joined(rep, owner[idx := v], w, i)
  {
    hide Occurs;
  }

  ghost function Sum(s: seq<nat>): nat {
    if s == [] then 0 else Sum(s[..|s| - 1]) + s[|s| - 1]
  }

  lemma {:induction false} SumBounds(s: seq<nat>, i: nat)
    requires i < |s|
    ensures s[i] <= Sum(s)
  {
    if i < |s| - 1 {
      SumBounds(s[..|s| - 1], i);
    }
  }

  // ---------- The state of a search ----------

  ghost predicate State(f: Formula, trail: Asg, n: nat, pa: seq<nat>, sz: seq<nat>, mk: seq<bool>, rep: map<Var, Var>, owner: map<nat, Var>) {
    && Forest(pa, sz, rep)
    && Classes(f, trail, sz, rep)
    && Owned(f, trail, n, pa, mk, rep, owner)
    && Heavy(sz, rep, owner)
  }

  /** A class that owns a clause has grown. */
  ghost predicate Heavy(sz: seq<nat>, rep: map<Var, Var>, owner: map<nat, Var>) {
    forall idx: nat :: idx in owner ==> owner[idx] in rep && rep[owner[idx]] < |sz| && sz[rep[owner[idx]]] > 1
  }

  lemma UnionHeavy(sz: seq<nat>, rep: map<Var, Var>, owner: map<nat, Var>, a: Var, b: Var)
    requires Heavy(sz, rep, owner) && a < |sz| && b < |sz| && 1 <= sz[a] && 1 <= sz[b]
    ensures Heavy(sz[b := sz[b] + sz[a]], Merged(rep, a, b), owner)
  {
  }

  lemma MarkHeavy(sz: seq<nat>, rep: map<Var, Var>, owner: map<nat, Var>, idx: nat, v: Var)
    requires Heavy(sz, rep, owner) && v in rep && rep[v] < |sz| && 1 <= sz[rep[v]]
    ensures Heavy(sz[rep[v] := sz[rep[v]] + 1], rep, owner[idx := v])
  {
  }

  /** Variables not visited yet are alone in their class. */
  ghost predicate Visited(rep: map<Var, Var>, owner: map<nat, Var>, done: set<Var>) {
    && (forall x: Var {:trigger rep[x]} :: x in rep ==> if x in done then rep[x] in done else rep[x] == x)
    && (forall idx: nat {:trigger owner[idx]} :: idx in owner ==> owner[idx] in done)
  }

  lemma UnionVisited(rep: map<Var, Var>, owner: map<nat, Var>, done: set<Var>, a: Var, b: Var)
    requires Visited(rep, owner, done) && a in done && b in done
    ensures Visited(Merged(rep, a, b), owner, done)
  {
    forall x: Var | x in rep
      ensures if x in done then Merged(rep, a, b)[x] in done else Merged(rep, a, b)[x] == x
    {
      assert rep[x] == rep[x];
    }
  }

  lemma RootFacts(f: Formula, trail: Asg, n: nat, pa: seq<nat>, sz: seq<nat>, mk: seq<bool>, rep: map<Var, Var>, owner: map<nat, Var>, v: Var)
    requires State(f, trail, n, pa, sz, mk, rep, owner) && v in rep
    ensures v <= n && v < |pa| && v < |sz| && |mk| == |f| && |pa| == n + 1 + |f|
    ensures rep[v] in rep && rep[rep[v]] == rep[v] && rep[v] <= n && rep[v] < |sz|
    ensures rep[v] == v <==> pa[v] == v
    ensures pa[v] in rep && rep[pa[v]] == rep[v] && pa[v] <= n
    ensures Linked(f, trail, rep.Keys, v, rep[v])
    ensures !IsFreeVariable(f, trail, v) ==> !IsFreeVariable(f, trail, rep[v])
    ensures rep[v] != v ==> !IsFreeVariable(f, trail, v)
    ensures sz[v] > 1 ==> !IsFreeVariable(f, trail, v)
    ensures sz[v] >= 1
  {
    hide Linked, IsFreeVariable, Heavy;
    assert Node(pa, sz, rep, v);
    assert Node(pa, sz, rep, rep[v]);
  }

  /** An open clause that is marked already links its variables to the one that marked it. */
  lemma OwnerFacts(f: Formula, trail: Asg, n: nat, pa: seq<nat>, sz: seq<nat>, mk: seq<bool>, rep: map<Var, Var>, owner: map<nat, Var>, idx: nat, v: Var)
    requires State(f, trail, n, pa, sz, mk, rep, owner) && v in rep && Occurs(f, trail, idx, v) && idx < |f| && idx < |mk| && mk[idx]
    ensures idx in owner && owner[idx] in rep && idx + n + 1 < |pa| && pa[idx + n + 1] in rep
    ensures rep[pa[idx + n + 1]] == rep[owner[idx]]
    ensures Linked(f, trail, rep.Keys, rep[v], rep[owner[idx]])
    ensures !IsFreeVariable(f, trail, rep[owner[idx]])
  {
    hide Linked, IsFreeVariable, Forest, Classes, Heavy;
    var u := owner[idx];
    OccursNotFree(f, trail, idx, u);
    hide Occurs;
    RootFacts(f, trail, n, pa, sz, mk, rep, owner, v);
    RootFacts(f, trail, n, pa, sz, mk, rep, owner, u);
    LinkedBy(f, trail, rep.Keys, idx, v, u);
    LinkedThrough(f, trail, rep.Keys, rep[v], v, u);
    LinkedFlip(f, trail, rep.Keys, rep[v], u);
    LinkedThrough(f, trail, rep.Keys, rep[v], u, rep[u]);
  }

  lemma OccursNotFree(f: Formula, trail: Asg, idx: nat, v: Var)
    requires Occurs(f, trail, idx, v)
    ensures !IsFreeVariable(f, trail, v)
  {
    assert f[idx] in f;
  }

  // ---------- One search ----------

  lemma ForestEdge(f: Formula, trail: Asg, n: nat, pa: seq<nat>, sz: seq<nat>, mk: seq<bool>, rep: map<Var, Var>, owner: map<nat, Var>, a: Var, b: Var)
    requires State(f, trail, n, pa, sz, mk, rep, owner) && a in rep && b in rep && rep[a] == a && rep[b] == b && a != b
    requires a < |pa| && a < |sz| && b < |sz| && sz[a] <= sz[b]
    requires Linked(f, trail, rep.Keys, a, b) && !IsFreeVariable(f, trail, a) && !IsFreeVariable(f, trail, b)
    ensures State(f, trail, n, pa[a := b], sz[b := sz[b] + sz[a]], mk, Merged(rep, a, b), owner)
    ensures forall w: Var, i: nat :: Joined(rep, owner, w, i) ==> Joined(Merged(rep, a, b), owner, w, i)
  {
    RootFacts(f, trail, n, pa, sz, mk, rep, owner, a);
    RootFacts(f, trail, n, pa, sz, mk, rep, owner, b);
    hide Forest, Classes, Owned, Heavy, Linked, IsFreeVariable, Joined;
    UnionHeavy(sz, rep, owner, a, b);
    UnionForest(pa, sz, rep, a, b);
    UnionClasses(f, trail, sz, rep, a, b);
    UnionOwned(f, trail, n, pa, mk, rep, owner, a, b);
  }

  lemma MarkState(f: Formula, trail: Asg, n: nat, pa: seq<nat>, sz: seq<nat>, mk: seq<bool>, rep: map<Var, Var>, owner: map<nat, Var>, idx: nat, v: Var)
    requires State(f, trail, n, pa, sz, mk, rep, owner) && v in rep && idx < |f| && |mk| == |f| && |pa| == n + 1 + |f|
    requires Occurs(f, trail, idx, v) && !mk[idx] && rep[v] < |sz|
    ensures State(f, trail, n, pa[idx + n + 1 := rep[v]], sz[rep[v] := sz[rep[v]] + 1], mk[idx := true], rep, owner[idx := v])
    ensures forall w: Var, i: nat :: Joined(rep, owner, w, i) ==> Joined(rep, owner[idx := v], w, i)
    ensures Joined(rep, owner[idx := v], v, idx)
  {
    hide *;
    StateParts(f, trail, n, pa, sz, mk, rep, owner);
    RootFacts(f, trail, n, pa, sz, mk, rep, owner, v);
    OccursNotFree(f, trail, idx, v);
    GrowForest(pa, sz, rep, rep[v], idx + n + 1);
    GrowClasses(f, trail, sz, rep, rep[v]);
    MarkOwned(f, trail, n, pa, mk, rep, owner, idx, v);
    RootFacts(f, trail, n, pa, sz, mk, rep, owner, rep[v]);
    MarkHeavy(sz, rep, owner, idx, v);
    StateWhole(f, trail, n, pa[idx + n + 1 := rep[v]], sz[rep[v] := sz[rep[v]] + 1], mk[idx := true], rep, owner[idx := v]);
    JoinedSelf(rep, owner, v, idx);
  }

  lemma JoinedSelf(rep: map<Var, Var>, owner: map<nat, Var>, v: Var, idx: nat)
    requires v in rep
    ensures Joined(rep, owner[idx := v], v, idx)
  {
  }

  lemma StateParts(f: Formula, trail: Asg, n: nat, pa: seq<nat>, sz: seq<nat>, mk: seq<bool>, rep: map<Var, Var>, owner: map<nat, Var>)
    requires State(f, trail, n, pa, sz, mk, rep, owner)
    ensures Forest(pa, sz, rep) && Classes(f, trail, sz, rep) && Owned(f, trail, n, pa, mk, rep, owner) && Heavy(sz, rep, owner)
    ensures forall x: Var :: x in rep ==> x <= n
  {
    hide Forest, Classes, Heavy, Occurs;
  }

  lemma StateWhole(f: Formula, trail: Asg, n: nat, pa: seq<nat>, sz: seq<nat>, mk: seq<bool>, rep: map<Var, Var>, owner: map<nat, Var>)
    requires Forest(pa, sz, rep) && Classes(f, trail, sz, rep) && Owned(f, trail, n, pa, mk, rep, owner) && Heavy(sz, rep, owner)
    ensures State(f, trail, n, pa, sz, mk, rep, owner)
  {
    hide Forest, Classes, Owned, Heavy;
  }

  lemma GrowClasses(f: Formula, trail: Asg, sz: seq<nat>, rep: map<Var, Var>, r: Var)
    requires Classes(f, trail, sz, rep) && r < |sz| && !IsFreeVariable(f, trail, r)
    ensures Classes(f, trail, sz[r := sz[r] + 1], rep)
  {
    hide Linked, IsFreeVariable;
    forall x: Var | x in rep
      ensures Member(f, trail, rep.Keys, sz[r := sz[r] + 1], x, rep[x])
    {
      assert Member(f, trail, rep.Keys, sz, x, rep[x]);
    }
  }

  /** Changing parents inside the forest does not affect the clauses. */
  lemma OwnedFrame(f: Formula, trail: Asg, n: nat, pa: seq<nat>, pa': seq<nat>, mk: seq<bool>, rep: map<Var, Var>, owner: map<nat, Var>)
    requires Owned(f, trail, n, pa, mk, rep, owner)
    requires |pa'| == |pa| && forall k: nat :: k < |pa| && k !in rep ==> pa'[k] == pa[k]
    ensures Owned(f, trail, n, pa', mk, rep, owner)
  {
    hide Occurs;
  }

  // ---------- Reading off the components ----------

  /** The variable shares the class of every open clause that mentions it. */
  ghost predicate AllJoined(f: Formula, trail: Asg, rep: map<Var, Var>, owner: map<nat, Var>, v: Var) {
    forall idx: nat :: Occurs(f, trail, idx, v) ==> Joined(rep, owner, v, idx)
  }

  /** The visited variables, grouped by their roots. */
  ghost predicate Grouped(f: Formula, trail: Asg, rep: map<Var, Var>, seen: seq<Var>, rootSet: seq<Var>, varCo: seq<seq<Var>>, free: seq<Var>) {
    && NoDup(rootSet) && |rootSet| == |varCo| && NoDup(free)
    && (forall i :: 0 <= i < |varCo| ==> varCo[i] != [] && NoDup(varCo[i]))
    && (forall i, x: Var :: 0 <= i < |varCo| && x in varCo[i] ==>
        x in rep && rep[x] == rootSet[i] && x in seen && !IsFreeVariable(f, trail, x))
    && (forall x: Var :: x in free ==> x in rep && x in seen && IsFreeVariable(f, trail, x))
    && (forall x: Var :: x in seen && x in rep ==> x in free || InSomeComponent(varCo, x))
  }

  lemma NoDupSnoc(s: seq<Var>, x: Var)
    requires NoDup(s) && x !in s
    ensures NoDup(s + [x])
  {
  }

  lemma GroupedFree(f: Formula, trail: Asg, rep: map<Var, Var>, seen: seq<Var>, rootSet: seq<Var>, varCo: seq<seq<Var>>, free: seq<Var>, v: Var)
    requires Grouped(f, trail, rep, seen, rootSet, varCo, free)
    requires v in rep && v !in seen && IsFreeVariable(f, trail, v)
    ensures Grouped(f, trail, rep, seen + [v], rootSet, varCo, free + [v])
  {
    hide IsFreeVariable;
    NoDupSnoc(free, v);
  }

  lemma GroupedSkip(f: Formula, trail: Asg, rep: map<Var, Var>, seen: seq<Var>, rootSet: seq<Var>, varCo: seq<seq<Var>>, free: seq<Var>, v: Var)
    requires Grouped(f, trail, rep, seen, rootSet, varCo, free) && v !in rep
    ensures Grouped(f, trail, rep, seen + [v], rootSet, varCo, free)
  {
    hide IsFreeVariable, InSomeComponent, NoDup;
  }

  /** Where a variable with root `r` goes: the component of `r`, or a new one. */
  ghost predicate Placed(rootSet: seq<Var>, varCo: seq<seq<Var>>, r: Var, v: Var, rootSet': seq<Var>, varCo': seq<seq<Var>>) {
    if r in rootSet then
      && rootSet' == rootSet
      && exists k :: 0 <= k < |rootSet| && k < |varCo| && rootSet[k] == r && varCo' == varCo[k := varCo[k] + [v]]
    else rootSet' == rootSet + [r] && varCo' == varCo + [[v]]
  }

  lemma GroupedPlace(f: Formula, trail: Asg, rep: map<Var, Var>, seen: seq<Var>, rootSet: seq<Var>, varCo: seq<seq<Var>>, free: seq<Var>,
      v: Var, rootSet': seq<Var>, varCo': seq<seq<Var>>)
    requires Grouped(f, trail, rep, seen, rootSet, varCo, free)
    requires v in rep && v !in seen && !IsFreeVariable(f, trail, v)
    requires Placed(rootSet, varCo, rep[v], v, rootSet', varCo')
    ensures Grouped(f, trail, rep, seen + [v], rootSet', varCo', free)
  {
    hide *;
    if rep[v] in rootSet {
      GroupedOld(f, trail, rep, seen, rootSet, varCo, free, v, rootSet', varCo');
    } else {
      GroupedNew(f, trail, rep, seen, rootSet, varCo, free, v, rootSet', varCo');
    }
  }

  lemma GroupedOld(f: Formula, trail: Asg, rep: map<Var, Var>, seen: seq<Var>, rootSet: seq<Var>, varCo: seq<seq<Var>>, free: seq<Var>,
      v: Var, rootSet': seq<Var>, varCo': seq<seq<Var>>)
    requires Grouped(f, trail, rep, seen, rootSet, varCo, free)
    requires v in rep && v !in seen && !IsFreeVariable(f, trail, v) && rep[v] in rootSet
    requires Placed(rootSet, varCo, rep[v], v, rootSet', varCo')
    ensures Grouped(f, trail, rep, seen + [v], rootSet', varCo', free)
  {
    hide IsFreeVariable, NoDup, InSomeComponent;
    var k :| 0 <= k < |rootSet| && k < |varCo| && rootSet[k] == rep[v] && varCo' == varCo[k := varCo[k] + [v]];
    NoDupSnoc(varCo[k], v);
    assert v in varCo'[k];
    PlacedKeeps(varCo, varCo', v);
    InComponent(varCo', k, v);
  }

  lemma GroupedNew(f: Formula, trail: Asg, rep: map<Var, Var>, seen: seq<Var>, rootSet: seq<Var>, varCo: seq<seq<Var>>, free: seq<Var>,
      v: Var, rootSet': seq<Var>, varCo': seq<seq<Var>>)
    requires Grouped(f, trail, rep, seen, rootSet, varCo, free)
    requires v in rep && v !in seen && !IsFreeVariable(f, trail, v) && rep[v] !in rootSet
    requires Placed(rootSet, varCo, rep[v], v, rootSet', varCo')
    ensures Grouped(f, trail, rep, seen + [v], rootSet', varCo', free)
  {
    hide IsFreeVariable, NoDup, InSomeComponent;
    NoDupSnoc(rootSet, rep[v]);
    NoDupSingle(v);
    assert v in varCo'[|varCo|];
    PlacedKeeps(varCo, varCo', v);
    InComponent(varCo', |varCo|, v);
  }

  lemma NoDupSingle(x: Var)
    ensures NoDup([x])
  {
  }

  lemma InComponent(comps: seq<seq<Var>>, k: nat, v: Var)
    requires k < |comps| && v in comps[k]
    ensures InSomeComponent(comps, v)
  {
  }

  lemma PlacedKeeps(varCo: seq<seq<Var>>, varCo': seq<seq<Var>>, v: Var)
    requires |varCo| <= |varCo'|
    requires forall i, x: Var :: 0 <= i < |varCo| && x in varCo[i] ==> x in varCo'[i]
    ensures forall x: Var :: InSomeComponent(varCo, x) ==> InSomeComponent(varCo', x)
  {
  }

  lemma GroupsSeparated(f: Formula, trail: Asg, rep: map<Var, Var>, owner: map<nat, Var>, a: seq<Var>, b: seq<Var>, ra: Var, rb: Var)
    requires ra != rb
    requires forall x: Var :: x in a ==> x in rep && rep[x] == ra && AllJoined(f, trail, rep, owner, x)
    requires forall x: Var :: x in b ==> x in rep && rep[x] == rb && AllJoined(f, trail, rep, owner, x)
    ensures Separated(f, Elements(a), Elements(b), trail)
  {
    forall c | c in f && !SatClause(c, trail) && Touches(c, Elements(a))
      ensures !Touches(c, Elements(b))
    {
      var l :| l in c && l.v in Elements(a);
      var idx: nat :| idx < |f| && f[idx] == c;
      ClauseOccurs(f, trail, idx, l);
      forall k | k in c
        ensures k.v !in Elements(b)
      {
        ClauseOccurs(f, trail, idx, k);
        assert Joined(rep, owner, l.v, idx);
      }
    }
  }

  lemma ClauseOccurs(f: Formula, trail: Asg, idx: nat, l: Lit)
    requires idx < |f| && !SatClause(f[idx], trail) && l in f[idx]
    ensures Occurs(f, trail, idx, l.v)
  {
    var i :| 0 <= i < |f[idx]| && f[idx][i] == l;
  }

  /** Variables with the same root are linked. */
  ghost predicate Finest(f: Formula, trail: Asg, vars: seq<Var>, comps: seq<seq<Var>>) {
    forall i, x: Var, y: Var :: 0 <= i < |comps| && x in comps[i] && y in comps[i] ==> Linked(f, trail, OpenVars(vars, trail), x, y)
  }

  lemma GroupsLinked(f: Formula, trail: Asg, vars: seq<Var>, sz: seq<nat>, rep: map<Var, Var>, rootSet: seq<Var>, varCo: seq<seq<Var>>, free: seq<Var>)
    requires Grouped(f, trail, rep, vars, rootSet, varCo, free) && Classes(f, trail, sz, rep) && rep.Keys == OpenVars(vars, trail)
    ensures Finest(f, trail, vars, varCo)
  {
    hide Linked, IsFreeVariable, NoDup, InSomeComponent;
    var u := rep.Keys;
    forall i, x: Var, y: Var | 0 <= i < |varCo| && x in varCo[i] && y in varCo[i]
      ensures Linked(f, trail, u, x, y)
    {
      LinkedFlip(f, trail, u, x, rep[x]);
      LinkedFlip(f, trail, u, y, rep[y]);
      LinkedThrough(f, trail, u, x, rep[x], y);
    }
  }

  lemma OneRoot(f: Formula, trail: Asg, rep: map<Var, Var>, seen: seq<Var>, rootSet: seq<Var>, varCo: seq<seq<Var>>, free: seq<Var>, j: nat, x: Var)
    requires Grouped(f, trail, rep, seen, rootSet, varCo, free) && j < |varCo|
    ensures x in varCo[j] ==> x in rep && rep[x] == rootSet[j]
  {
    hide IsFreeVariable, NoDup, InSomeComponent;
  }

  lemma GroupsSplit(f: Formula, trail: Asg, vars: seq<Var>, rep: map<Var, Var>, owner: map<nat, Var>, rootSet: seq<Var>, varCo: seq<seq<Var>>, free: seq<Var>)
    requires Grouped(f, trail, rep, vars, rootSet, varCo, free) && rep.Keys == OpenVars(vars, trail)
    requires forall x: Var :: x in rep ==> AllJoined(f, trail, rep, owner, x)
    ensures IsSplit(f, vars, trail, varCo, free)
  {
    hide IsFreeVariable, FreeIn, AllJoined, Separated;
    forall i, j | 0 <= i < j < |varCo|
      ensures Separated(f, Elements(varCo[i]), Elements(varCo[j]), trail)
    {
      GroupsSeparated(f, trail, rep, owner, varCo[i], varCo[j], rootSet[i], rootSet[j]);
    }
    forall x | x in free
      ensures FreeIn(f, trail, x)
    {
      FreeVariableIsFree(f, trail, x);
    }
    forall x: Var
      ensures Unassigned(x, vars, trail) <==> x in free || InSomeComponent(varCo, x)
    {
      assert Unassigned(x, vars, trail) <==> x in rep;
    }
    forall i, j, x: Var | 0 <= i < j < |varCo| && x in varCo[i]
      ensures x !in varCo[j]
    {
      assert rootSet[i] != rootSet[j];
      OneRoot(f, trail, rep, vars, rootSet, varCo, free, j, x);
    }
  }

  class CnfManager {
    const clauses: Formula
    const nbVar: nat
    const parent: array<nat>
    const size: array<nat>
    const pos: array<int>
    const markView: array<bool>
    var mustUnMark: seq<nat>

    /** The current values of the variables. */
    var value: Asg

    ghost predicate Shaped() {
      && parent != size
      && parent.Length == size.Length == pos.Length == nbVar + 1 + |clauses|
      && markView.Length == |clauses|
    }

    /** Between searches no clause is marked and no root has a component. */
    ghost predicate Clean()
      reads this`mustUnMark, pos, markView
    {
      && Shaped()
      && (forall i :: 0 <= i < pos.Length ==> pos[i] == -1)
      && (forall i :: 0 <= i < markView.Length ==> !markView[i])
      && mustUnMark == []
    }

    /** Every marked clause is scheduled for unmarking. */
    ghost predicate Scheduled()
      reads this`mustUnMark, markView
    {
      && (forall i: nat :: i < markView.Length && markView[i] ==> i in mustUnMark)
      && (forall i: nat :: i in mustUnMark ==> i < markView.Length)
    }

    method ResetUnMark()
      requires Scheduled()
      modifies markView, this`mustUnMark
      ensures mustUnMark == [] && forall i :: 0 <= i < markView.Length ==> !markView[i]
    {
      for k := 0 to |mustUnMark|
        invariant mustUnMark == old(mustUnMark)
        invariant forall i: nat :: i < markView.Length && markView[i] ==> i in mustUnMark[k..]
      {
        assert mustUnMark[k] in mustUnMark;
        markView[mustUnMark[k]] := false;
        assert mustUnMark[k..] == [mustUnMark[k]] + mustUnMark[k + 1..];
      }
      mustUnMark := [];
    }

    constructor (clauses: Formula, nbVar: nat)
      ensures this.clauses == clauses && this.nbVar == nbVar && Clean() && value == map[]
      ensures fresh(parent) && fresh(size) && fresh(pos) && fresh(markView)
    {
      this.clauses, this.nbVar := clauses, nbVar;
      var n := nbVar + 1 + |clauses|;
      parent := new nat[n](_ => 0);
      size := new nat[n](_ => 0);
      pos := new int[n](_ => -1);
      markView := new bool[|clauses|](_ => false);
      mustUnMark := [];
      value := map[];
    }

    ghost predicate InState(trail: Asg, rep: map<Var, Var>, owner: map<nat, Var>)
      reads parent, size, markView
    {
      && Shaped()
      && State(clauses, trail, nbVar, parent[..], size[..], markView[..], rep, owner)
    }

    method PreUpdate(lits: seq<Lit>)
      requires DistinctVars(lits) && forall l :: l in lits ==> l.v !in value
      modifies this`value
      ensures value == old(value) + AsgOf(lits)
    {
      for i := 0 to |lits|
        invariant value + AsgOf(lits[i..]) == old(value) + AsgOf(lits)
      {
        assert lits[i..][1..] == lits[i + 1..] && DistinctVars(lits[i..]);
        UnfoldUnits({}, value, lits[i..]);
        value := value[lits[i].v := !lits[i].sign];
      }
    }

    method PostUpdate(lits: seq<Lit>)
      modifies this`value
      ensures value == old(value) - LitVars(lits)
    {
      for i := 0 to |lits|
        invariant value == old(value) - LitVars(lits[..i])
      {
        assert lits[..i + 1] == lits[..i] + [lits[i]];
        value := value - {lits[i].v};
      }
      assert lits[..|lits|] == lits;
    }

    /** The open clauses in which a literal occurs. */
    method GetVecIdxClause(trail: Asg, l: Lit) returns (list: seq<nat>)
      ensures forall idx: nat :: idx in list <==> idx < |clauses| && !SatClause(clauses[idx], trail) && l in clauses[idx]
    {
      list := [];
      for i: nat := 0 to |clauses|
        invariant forall idx: nat :: idx in list <==> idx < i && !SatClause(clauses[idx], trail) && l in clauses[idx]
      {
        if !SatClause(clauses[i], trail) && l in clauses[i] {
          list := list + [i];
        }
      }
    }

    /** Follows the parents to the root, halving the path on the way. */
    method FindRoot(start: nat, trail: Asg, ghost rep: map<Var, Var>, ghost owner: map<nat, Var>) returns (root: Var)
      requires InState(trail, rep, owner) && start in rep
      modifies parent
      ensures InState(trail, rep, owner) && root == rep[start]
    {
      hide *;
      root := start;
      StartFacts(start, trail, rep, owner);
      while root != parent[root]
        invariant Shaped() && root < parent.Length == size.Length && InState(trail, rep, owner) && root in rep && rep[root] == rep[start]
        decreases Sum(size[..]) - size[root]
      {
        HalveState(root, trail, rep, owner);
        ghost var x, next, pa, sz, mk := root, parent[parent[root]], parent[..], size[..], markView[..];
        parent[root] := parent[parent[root]];
        root := parent[root];
        assert parent[..] == pa[x := next] && size[..] == sz && markView[..] == mk;
        StateHere(trail, rep, owner);
      }
      RootReached(root, trail, rep, owner);
    }

    lemma StateHere(trail: Asg, rep: map<Var, Var>, owner: map<nat, Var>)
      requires Shaped() && State(clauses, trail, nbVar, parent[..], size[..], markView[..], rep, owner)
      ensures InState(trail, rep, owner)
    {
    }

    lemma StartFacts(x: Var, trail: Asg, rep: map<Var, Var>, owner: map<nat, Var>)
      requires InState(trail, rep, owner) && x in rep
      ensures Shaped() && x < parent.Length == size.Length
    {
      RootFacts(clauses, trail, nbVar, parent[..], size[..], markView[..], rep, owner, x);
    }

    lemma RootReached(x: Var, trail: Asg, rep: map<Var, Var>, owner: map<nat, Var>)
      requires InState(trail, rep, owner) && x in rep && x < parent.Length && parent[x] == x
      ensures rep[x] == x
    {
      RootFacts(clauses, trail, nbVar, parent[..], size[..], markView[..], rep, owner, x);
    }

    lemma HalveState(x: Var, trail: Asg, rep: map<Var, Var>, owner: map<nat, Var>)
      requires InState(trail, rep, owner) && x in rep && x < parent.Length && parent[x] != x
      ensures parent[x] < parent.Length && parent[parent[x]] < parent.Length == size.Length
      ensures parent[parent[x]] in rep && rep[parent[parent[x]]] == rep[x]
      ensures size[x] < size[parent[parent[x]]] <= Sum(size[..])
      ensures Shaped() && State(clauses, trail, nbVar, parent[..][x := parent[parent[x]]], size[..], markView[..], rep, owner)
    {
      var pa, sz := parent[..], size[..];
      RootFacts(clauses, trail, nbVar, pa, sz, markView[..], rep, owner, x);
      hide Forest, Classes, Owned, Heavy, Linked, IsFreeVariable;
      assert pa[x] == parent[x];
      HalveForest(pa, sz, rep, x);
      OwnedFrame(clauses, trail, nbVar, pa, pa[x := pa[pa[x]]], markView[..], rep, owner);
      SumBounds(sz, pa[pa[x]]);
    }

    /** Puts an open clause that mentions `v` into the class of `v`. */
    method Attach(idx: nat, v: Var, rootV: Var, trail: Asg, ghost rep: map<Var, Var>, ghost owner: map<nat, Var>, ghost done: set<Var>)
      returns (r: Var, ghost rep': map<Var, Var>, ghost owner': map<nat, Var>)
      requires InState(trail, rep, owner) && Visited(rep, owner, done) && Scheduled()
      requires v in rep && v in done && rootV == rep[v] && Occurs(clauses, trail, idx, v)
      modifies parent, size, markView, this`mustUnMark
      ensures InState(trail, rep', owner') && Visited(rep', owner', done) && Scheduled()
      ensures rep'.Keys == rep.Keys && v in rep' && r == rep'[v]
      ensures Joined(rep', owner', v, idx)
      ensures forall w: Var, i: nat :: Joined(rep, owner, w, i) ==> Joined(rep', owner', w, i)
    {
      hide *;
      r, rep', owner' := rootV, rep, owner;
      AttachFacts(idx, v, trail, rep, owner, done);
      ghost var pa, sz, mk := parent[..], size[..], markView[..];
      if !markView[idx] {
        MarkState(clauses, trail, nbVar, pa, sz, mk, rep, owner, idx, v);
        MarkVisited(rep, owner, done, idx, v);
        ghost var s := size[rootV] + 1;
        Schedule(idx);
        parent[idx + nbVar + 1] := rootV;
        size[rootV] := size[rootV] + 1;
        owner' := owner[idx := v];
        assert parent[..] == pa[idx + nbVar + 1 := rootV] && size[..] == sz[rootV := s] && markView[..] == mk[idx := true];
        StateHere(trail, rep, owner');
      } else {
        MarkedFacts(idx, v, trail, rep, owner, done);
        var rootW := FindRoot(parent[idx + nbVar + 1], trail, rep, owner);
        StillScheduled(mk);
        if rootV == rootW {
          JoinedAlready(rep, owner, v, idx);
          return;
        }
        RootsFacts(rootV, rootW, trail, rep, owner);
        pa := parent[..];
        if size[rootV] < size[rootW] {
          UnionState(rootV, rootW, trail, rep, owner, done);
          UnionJoins(rep, owner, v, idx, rootV, rootW);
          ghost var s := size[rootW] + size[rootV];
          size[rootW] := size[rootW] + size[rootV];
          parent[rootV] := parent[rootW];
          assert parent[..] == pa[rootV := rootW] && size[..] == sz[rootW := s] && markView[..] == mk;
          rep' := Merged(rep, rootV, rootW);
          r := rootW;
        } else {
          UnionState(rootW, rootV, trail, rep, owner, done);
          UnionJoins(rep, owner, v, idx, rootW, rootV);
          ghost var s := size[rootV] + size[rootW];
          size[rootV] := size[rootV] + size[rootW];
          parent[rootW] := parent[rootV];
          assert parent[..] == pa[rootW := rootV] && size[..] == sz[rootV := s] && markView[..] == mk;
          rep' := Merged(rep, rootW, rootV);
        }
        StateHere(trail, rep', owner);
        StillScheduled(mk);
      }
    }

    method Init(setOfVar: seq<Var>, trail: Asg, ghost rep: map<Var, Var>)
      requires Clean() && forall v: Var :: v in setOfVar ==> v <= nbVar
      requires rep == map v | v in OpenVars(setOfVar, trail) :: v
      modifies parent, size
      ensures InState(trail, rep, map[])
    {
      for i := 0 to |setOfVar|
        invariant forall k :: 0 <= k < i ==> setOfVar[k] <= nbVar && parent[setOfVar[k]] == setOfVar[k] && size[setOfVar[k]] == 1
      {
        assert setOfVar[i] in setOfVar;
        parent[setOfVar[i]] := setOfVar[i];
        size[setOfVar[i]] := 1;
      }
      forall x: Var | x in rep
        ensures Node(parent[..], size[..], rep, x) && Member(clauses, trail, rep.Keys, size[..], x, x)
      {
        assert x in setOfVar;
      }
    }

    /** Joins `v` with every open clause that contains `l`. */
    method ConnectLit(l: Lit, root: Var, trail: Asg, ghost rep: map<Var, Var>, ghost owner: map<nat, Var>, ghost done: set<Var>)
      returns (rootV: Var, ghost rep': map<Var, Var>, ghost owner': map<nat, Var>)
      requires InState(trail, rep, owner) && Visited(rep, owner, done) && Scheduled()
      requires l.v in rep && l.v in done && root == rep[l.v]
      modifies parent, size, markView, this`mustUnMark
      ensures InState(trail, rep', owner') && Visited(rep', owner', done) && Scheduled()
      ensures rep'.Keys == rep.Keys && l.v in rep' && rootV == rep'[l.v]
      ensures forall idx: nat :: idx < |clauses| && !SatClause(clauses[idx], trail) && l in clauses[idx] ==> Joined(rep', owner', l.v, idx)
      ensures forall w: Var, i: nat :: Joined(rep, owner, w, i) ==> Joined(rep', owner', w, i)
    {
      hide *;
      rootV, rep', owner' := root, rep, owner;
      var listIndex := GetVecIdxClause(trail, l);
      for k := 0 to |listIndex|
        invariant InState(trail, rep', owner') && Visited(rep', owner', done) && Scheduled()
        invariant rep'.Keys == rep.Keys && l.v in rep' && rootV == rep'[l.v]
        invariant forall j :: 0 <= j < k ==> Joined(rep', owner', l.v, listIndex[j])
        invariant forall w: Var, i: nat :: Joined(rep, owner, w, i) ==> Joined(rep', owner', w, i)
      {
        assert listIndex[k] in listIndex;
        ClauseOccurs(clauses, trail, listIndex[k], l);
        rootV, rep', owner' := Attach(listIndex[k], l.v, rootV, trail, rep', owner', done);
      }
    }

    /** Joins every unassigned variable with the open clauses that mention it. */
    method Connect(setOfVar: seq<Var>, trail: Asg, ghost start: map<Var, Var>)
      returns (ghost rep: map<Var, Var>, ghost owner: map<nat, Var>)
      requires NoDup(setOfVar) && Scheduled() && start == map v | v in OpenVars(setOfVar, trail) :: v
      requires InState(trail, start, map[])
      modifies parent, size, markView, this`mustUnMark
      ensures InState(trail, rep, owner) && Scheduled() && rep.Keys == OpenVars(setOfVar, trail)
      ensures forall x: Var :: x in rep ==> AllJoined(clauses, trail, rep, owner, x)
    {
      hide *;
      rep, owner := start, map[];
      NothingVisited(start, setOfVar, trail);
      for i := 0 to |setOfVar|
        invariant InState(trail, rep, owner) && Scheduled() && rep.Keys == OpenVars(setOfVar, trail)
        invariant Visited(rep, owner, OpenVars(setOfVar[..i], trail))
        invariant forall x: Var :: x in OpenVars(setOfVar[..i], trail) ==> AllJoined(clauses, trail, rep, owner, x)
      {
        var v := setOfVar[i];
        NextOpen(setOfVar, trail, i);
        if v in trail { continue; }
        ghost var done := OpenVars(setOfVar[..i + 1], trail);
        VisitNext(rep, owner, OpenVars(setOfVar[..i], trail), v);
        var rootV, r1, o1 := ConnectLit(Lit(v, false), v, trail, rep, owner, done);
        ghost var r2, o2;
        rootV, r2, o2 := ConnectLit(Lit(v, true), rootV, trail, r1, o1, done);
        AllJoinedKept(clauses, trail, rep, owner, r2, o2);
        BothLiterals(clauses, trail, r2, o2, v);
        rep, owner := r2, o2;
      }
      assert setOfVar[..|setOfVar|] == setOfVar;
    }

    /** The component of a root, opened when the root is met for the first time. */
    method Place(v: Var, rootV: Var, rootSet: seq<Var>, varCo: seq<seq<Var>>) returns (rootSet': seq<Var>, varCo': seq<seq<Var>>)
      requires Indexed(rootSet) && |varCo| == |rootSet| && rootV < pos.Length
      modifies pos
      ensures Indexed(rootSet') && |varCo'| == |rootSet'| && Placed(rootSet, varCo, rootV, v, rootSet', varCo')
    {
      rootSet', varCo' := rootSet, varCo;
      if pos[rootV] == -1 {
        pos[rootV] := |varCo|;
        varCo' := varCo' + [[]];
        rootSet' := rootSet' + [rootV];
      }
      var p := pos[rootV];
      assert [] + [v] == [v];
      varCo' := varCo'[p := varCo'[p] + [v]];
      assert rootV !in rootSet ==> varCo' == varCo + [[v]];
    }

    ghost predicate Indexed(rootSet: seq<Var>)
      reads pos
    {
      && (forall i :: 0 <= i < |rootSet| ==> rootSet[i] < pos.Length && pos[rootSet[i]] == i)
      && (forall r: Var :: r < pos.Length && r !in rootSet ==> pos[r] == -1)
    }

    /** Groups the unassigned variables by their roots. */
    method Collect(setOfVar: seq<Var>, trail: Asg, ghost rep: map<Var, Var>, ghost owner: map<nat, Var>)
      returns (rootSet: seq<Var>, varCo: seq<seq<Var>>, freeVar: seq<Var>)
      requires NoDup(setOfVar) && InState(trail, rep, owner) && rep.Keys == OpenVars(setOfVar, trail)
      requires forall x: Var :: x in rep ==> AllJoined(clauses, trail, rep, owner, x)
      requires Indexed([])
      modifies parent, pos
      ensures Indexed(rootSet) && Grouped(clauses, trail, rep, setOfVar, rootSet, varCo, freeVar)
      ensures InState(trail, rep, owner)
    {
      hide *;
      rootSet, varCo, freeVar := [], [], [];
      NothingGrouped(clauses, trail, rep);
      assert setOfVar[..0] == [];
      for i := 0 to |setOfVar|
        invariant Indexed(rootSet) && InState(trail, rep, owner) && |varCo| == |rootSet|
        invariant Grouped(clauses, trail, rep, setOfVar[..i], rootSet, varCo, freeVar)
      {
        var v := setOfVar[i];
        NextOpen(setOfVar, trail, i);
        if v in trail {
          GroupedSkip(clauses, trail, rep, setOfVar[..i], rootSet, varCo, freeVar, v);
          continue;
        }
        NodeFacts(v, trail, rep, owner);
        if parent[v] == v && size[v] == 1 {
          GroupedFree(clauses, trail, rep, setOfVar[..i], rootSet, varCo, freeVar, v);
          freeVar := freeVar + [v];
          continue;
        }
        var rootV := FindRoot(parent[v], trail, rep, owner);
        var roots, comps := Place(v, rootV, rootSet, varCo);
        GroupedPlace(clauses, trail, rep, setOfVar[..i], rootSet, varCo, freeVar, v, roots, comps);
        rootSet, varCo := roots, comps;
      }
      assert setOfVar[..|setOfVar|] == setOfVar;
    }

    lemma NodeFacts(v: Var, trail: Asg, rep: map<Var, Var>, owner: map<nat, Var>)
      requires InState(trail, rep, owner) && v in rep && AllJoined(clauses, trail, rep, owner, v)
      ensures v < parent.Length == size.Length == pos.Length && parent[v] in rep && rep[parent[v]] == rep[v] && rep[v] < pos.Length
      ensures parent[v] == v && size[v] == 1 <==> IsFreeVariable(clauses, trail, v)
    {
      hide Linked, AllJoined;
      RootFacts(clauses, trail, nbVar, parent[..], size[..], markView[..], rep, owner, v);
      if parent[v] == v && size[v] == 1 {
        LightIsFree(clauses, trail, size[..], rep, owner, v);
      }
    }

    /**
      The connected components of the open clauses over `setOfVar`, and the variables
      no open clause mentions; the marks are restored for the next search.
    */
    method ComputeConnectedComponent(setOfVar: seq<Var>) returns (varCo: seq<seq<Var>>, freeVar: seq<Var>)
      requires Clean() && NoDup(setOfVar) && forall v: Var :: v in setOfVar ==> v <= nbVar
      modifies this`mustUnMark, parent, size, pos, markView
      ensures Clean()
      ensures IsSplit(clauses, setOfVar, value, varCo, freeVar)
      ensures Finest(clauses, value, setOfVar, varCo)
    {
      ghost var trail := value;
      ghost var start := map v | v in OpenVars(setOfVar, trail) :: v;
      hide *;
      CleanStart();
      Init(setOfVar, value, start);
      ghost var rep, owner := Connect(setOfVar, value, start);
      var rootSet;
      rootSet, varCo, freeVar := Collect(setOfVar, value, rep, owner);
      GroupsSplit(clauses, trail, setOfVar, rep, owner, rootSet, varCo, freeVar);
      StateClasses(trail, rep, owner);
      GroupsLinked(clauses, trail, setOfVar, size[..], rep, rootSet, varCo, freeVar);
      ResetUnMark();
      ResetPos(rootSet);
      CleanEnd();
    }

    lemma CleanStart()
      requires Clean()
      ensures Shaped() && Scheduled() && Indexed([])
    {
    }

    lemma CleanEnd()
      requires Shaped() && mustUnMark == [] && (forall i :: 0 <= i < markView.Length ==> !markView[i]) && forall r: nat :: r < pos.Length ==> pos[r] == -1
      ensures Clean()
    {
    }

    lemma StateClasses(trail: Asg, rep: map<Var, Var>, owner: map<nat, Var>)
      requires InState(trail, rep, owner)
      ensures Shaped() && Classes(clauses, trail, size[..], rep)
    {
      hide Classes, Forest, Owned, Heavy;
    }

    method ResetPos(rootSet: seq<Var>)
      requires Indexed(rootSet)
      modifies pos
      ensures forall r: nat :: r < pos.Length ==> pos[r] == -1
    {
      for i := 0 to |rootSet|
        invariant forall r: Var :: r < pos.Length && r !in rootSet[i..] ==> pos[r] == -1
        invariant forall k :: 0 <= k < |rootSet| ==> rootSet[k] < pos.Length
      {
        assert rootSet[i..] == [rootSet[i]] + rootSet[i + 1..];
        pos[rootSet[i]] := -1;
      }
    }

    /** One component holding every unassigned variable that is not free. */
    method ComputeTrivialConnectedComponent(setOfVar: seq<Var>) returns (varConnected: seq<seq<Var>>, freeVar: seq<Var>)
      requires NoDup(setOfVar)
      ensures IsSplit(clauses, setOfVar, value, varConnected, freeVar)
      ensures |varConnected| <= 1
    {
      var comp: seq<Var> := [];
      freeVar := [];
      for i := 0 to |setOfVar|
        invariant NoDup(comp) && NoDup(freeVar)
        invariant forall x: Var :: x in comp ==> x !in freeVar
        invariant forall x: Var :: x in comp || x in freeVar <==> Unassigned(x, setOfVar[..i], value)
        invariant forall x: Var :: x in freeVar ==> IsFreeVariable(clauses, value, x)
      {
        var v := setOfVar[i];
        assert setOfVar[..i + 1] == setOfVar[..i] + [v];
        assert v !in setOfVar[..i];
        assert v !in freeVar && v !in comp;
        if v in value { continue; }
        if IsFreeVariable(clauses, value, v) {
          freeVar := freeVar + [v];
        } else {
          comp := comp + [v];
        }
      }
      assert setOfVar[..|setOfVar|] == setOfVar;
      forall x | x in freeVar
        ensures FreeIn(clauses, value, x)
      {
        FreeVariableIsFree(clauses, value, x);
      }
      varConnected := [comp];
      assert varConnected[0] == comp;
      assert forall x: Var :: x in comp <==> InSomeComponent(varConnected, x);
      if |comp| == 0 {
        varConnected := [];
      }
    }

    method Schedule(idx: nat)
      requires Scheduled() && idx < markView.Length
      modifies markView, this`mustUnMark
      ensures Scheduled() && mustUnMark == old(mustUnMark) + [idx]
      ensures markView[..] == old(markView[..])[idx := true]
    {
      markView[idx] := true;
      mustUnMark := mustUnMark + [idx];
    }

    twostate lemma StillScheduled(mk: seq<bool>)
      requires old(Scheduled()) && old(markView[..]) == mk && markView[..] == mk && mustUnMark == old(mustUnMark)
      ensures Scheduled()
    {
      forall i: nat | i < markView.Length && markView[i]
        ensures i in mustUnMark
      {
        assert mk[i];
        assert old(markView[i]);
      }
    }

    lemma AttachFacts(idx: nat, v: Var, trail: Asg, rep: map<Var, Var>, owner: map<nat, Var>, done: set<Var>)
      requires InState(trail, rep, owner) && Visited(rep, owner, done) && v in rep && v in done && Occurs(clauses, trail, idx, v)
      ensures Shaped() && parent.Length == size.Length == nbVar + 1 + |clauses| && parent != size
      ensures idx < markView.Length == |clauses| && rep[v] < size.Length && rep[v] <= nbVar
      ensures State(clauses, trail, nbVar, parent[..], size[..], markView[..], rep, owner)
      ensures rep[v] in done && rep[v] in rep && rep[rep[v]] == rep[v]
    {
      RootFacts(clauses, trail, nbVar, parent[..], size[..], markView[..], rep, owner, v);
    }

    lemma MarkedFacts(idx: nat, v: Var, trail: Asg, rep: map<Var, Var>, owner: map<nat, Var>, done: set<Var>)
      requires InState(trail, rep, owner) && Visited(rep, owner, done) && v in rep && Occurs(clauses, trail, idx, v) && idx < markView.Length && markView[idx]
      ensures idx + nbVar + 1 < parent.Length && parent[idx + nbVar + 1] in rep
      ensures idx in owner && owner[idx] in rep && rep[parent[idx + nbVar + 1]] == rep[owner[idx]]
      ensures rep[owner[idx]] in done
      ensures Linked(clauses, trail, rep.Keys, rep[v], rep[owner[idx]])
      ensures Linked(clauses, trail, rep.Keys, rep[owner[idx]], rep[v])
      ensures !IsFreeVariable(clauses, trail, rep[v]) && !IsFreeVariable(clauses, trail, rep[owner[idx]])
    {
      OwnerFacts(clauses, trail, nbVar, parent[..], size[..], markView[..], rep, owner, idx, v);
      RootFacts(clauses, trail, nbVar, parent[..], size[..], markView[..], rep, owner, v);
      OccursNotFree(clauses, trail, idx, v);
      hide Linked;
      LinkedFlip(clauses, trail, rep.Keys, rep[v], rep[owner[idx]]);
    }

    lemma RootsFacts(a: Var, b: Var, trail: Asg, rep: map<Var, Var>, owner: map<nat, Var>)
      requires InState(trail, rep, owner) && exists x: Var, y: Var :: x in rep && y in rep && rep[x] == a && rep[y] == b
      ensures a in rep && b in rep && rep[a] == a && rep[b] == b
      ensures a < size.Length == parent.Length && b < size.Length && parent[a] == a && parent[b] == b
    {
      var x: Var, y: Var :| x in rep && y in rep && rep[x] == a && rep[y] == b;
      RootFacts(clauses, trail, nbVar, parent[..], size[..], markView[..], rep, owner, x);
      RootFacts(clauses, trail, nbVar, parent[..], size[..], markView[..], rep, owner, y);
      RootFacts(clauses, trail, nbVar, parent[..], size[..], markView[..], rep, owner, a);
      RootFacts(clauses, trail, nbVar, parent[..], size[..], markView[..], rep, owner, b);
    }

    lemma StateNow(trail: Asg, rep: map<Var, Var>, owner: map<nat, Var>)
      requires InState(trail, rep, owner)
      ensures State(clauses, trail, nbVar, parent[..], size[..], markView[..], rep, owner)
    {
    }

    lemma UnionState(a: Var, b: Var, trail: Asg, rep: map<Var, Var>, owner: map<nat, Var>, done: set<Var>)
      requires InState(trail, rep, owner) && a in rep && b in rep && rep[a] == a && rep[b] == b && a != b
      requires a < parent.Length == size.Length && b < size.Length && size[a] <= size[b]
      requires Linked(clauses, trail, rep.Keys, a, b) && !IsFreeVariable(clauses, trail, a) && !IsFreeVariable(clauses, trail, b)
      requires Visited(rep, owner, done) && a in done && b in done
      ensures State(clauses, trail, nbVar, parent[..][a := b], size[..][b := size[b] + size[a]], markView[..], Merged(rep, a, b), owner)
      ensures Merged(rep, a, b).Keys == rep.Keys && Visited(Merged(rep, a, b), owner, done)
      ensures forall w: Var, i: nat :: Joined(rep, owner, w, i) ==> Joined(Merged(rep, a, b), owner, w, i)
    {
      hide *;
      var ps, zs, mv := parent[..], size[..], markView[..];
      StateNow(trail, rep, owner);
      ForestEdge(clauses, trail, nbVar, ps, zs, mv, rep, owner, a, b);
      assert zs[b] == size[b] && zs[a] == size[a];
      UnionVisited(rep, owner, done, a, b);
    }
  }

  lemma AllJoinedKept(f: Formula, trail: Asg, rep: map<Var, Var>, owner: map<nat, Var>, rep': map<Var, Var>, owner': map<nat, Var>)
    requires forall w: Var, i: nat :: Joined(rep, owner, w, i) ==> Joined(rep', owner', w, i)
    ensures forall w: Var :: AllJoined(f, trail, rep, owner, w) ==> AllJoined(f, trail, rep', owner', w)
  {
    hide Occurs, Joined;
  }

  lemma NothingVisited(start: map<Var, Var>, setOfVar: seq<Var>, trail: Asg)
    requires start == map v | v in OpenVars(setOfVar, trail) :: v
    ensures start.Keys == OpenVars(setOfVar, trail) && setOfVar[..0] == [] && OpenVars([], trail) == {}
    ensures Visited(start, map[], {})
  {
  }

  lemma NothingGrouped(f: Formula, trail: Asg, rep: map<Var, Var>)
    ensures Grouped(f, trail, rep, [], [], [], [])
  {
  }

  lemma NextOpen(setOfVar: seq<Var>, trail: Asg, i: nat)
    requires NoDup(setOfVar) && i < |setOfVar|
    ensures setOfVar[..i + 1] == setOfVar[..i] + [setOfVar[i]] && setOfVar[i] !in setOfVar[..i]
    ensures OpenVars(setOfVar[..i + 1], trail)
         == if setOfVar[i] in trail then OpenVars(setOfVar[..i], trail) else OpenVars(setOfVar[..i], trail) + {setOfVar[i]}
    ensures setOfVar[i] !in OpenVars(setOfVar[..i], trail)
    ensures setOfVar[i] in OpenVars(setOfVar, trail) <==> setOfVar[i] !in trail
  {
  }

  lemma VisitNext(rep: map<Var, Var>, owner: map<nat, Var>, done: set<Var>, v: Var)
    requires Visited(rep, owner, done) && v in rep && v !in done
    ensures rep[v] == v && Visited(rep, owner, done + {v})
  {
    assert forall x: Var :: x in rep ==> rep[x] == rep[x];
    assert forall i: nat :: i in owner ==> owner[i] in done;
  }

  lemma BothLiterals(f: Formula, trail: Asg, rep: map<Var, Var>, owner: map<nat, Var>, v: Var)
    requires forall idx: nat :: idx < |f| && !SatClause(f[idx], trail) && Lit(v, false) in f[idx] ==> Joined(rep, owner, v, idx)
    requires forall idx: nat :: idx < |f| && !SatClause(f[idx], trail) && Lit(v, true) in f[idx] ==> Joined(rep, owner, v, idx)
    ensures AllJoined(f, trail, rep, owner, v)
  {
    hide Joined, SatClause;
    forall idx: nat | Occurs(f, trail, idx, v)
      ensures Joined(rep, owner, v, idx)
    {
      var i :| 0 <= i < |f[idx]| && f[idx][i].v == v;
      assert f[idx][i] == Lit(v, f[idx][i].sign) && f[idx][i] in f[idx];
    }
  }

  /** A singleton of size one that joined all its clauses occurs in none. */
  lemma LightIsFree(f: Formula, trail: Asg, sz: seq<nat>, rep: map<Var, Var>, owner: map<nat, Var>, v: Var)
    requires Heavy(sz, rep, owner) && AllJoined(f, trail, rep, owner, v)
    requires v in rep && rep[v] == v && v < |sz| && sz[v] == 1
    ensures IsFreeVariable(f, trail, v)
  {
    forall c | c in f && Mentions(c, v)
      ensures SatClause(c, trail)
    {
      var idx: nat :| idx < |f| && f[idx] == c;
      if !SatClause(c, trail) {
        assert Occurs(f, trail, idx, v);
        assert false;
      }
    }
  }

  lemma MarkVisited(rep: map<Var, Var>, owner: map<nat, Var>, done: set<Var>, idx: nat, v: Var)
    requires Visited(rep, owner, done) && v in done
    ensures Visited(rep, owner[idx := v], done)
  {
    assert forall x: Var :: x in rep ==> rep[x] == rep[x];
    assert forall i: nat :: i in owner ==> owner[i] in done;
  }

  lemma JoinedAlready(rep: map<Var, Var>, owner: map<nat, Var>, v: Var, idx: nat)
    requires v in rep && idx in owner && owner[idx] in rep && rep[owner[idx]] == rep[v]
    ensures Joined(rep, owner, v, idx)
  {
  }

  lemma UnionJoins(rep: map<Var, Var>, owner: map<nat, Var>, v: Var, idx: nat, a: Var, b: Var)
    requires v in rep && idx in owner && owner[idx] in rep
    requires (rep[v] == a && rep[owner[idx]] == b) || (rep[v] == b && rep[owner[idx]] == a)
    ensures v in Merged(rep, a, b) && Merged(rep, a, b)[v] == b
    ensures Joined(Merged(rep, a, b), owner, v, idx)
  {
  }
}
