/**
  projMC: projected model counting by separating the projected clauses, choosing which
  selectors stay true, and counting the other projected assignments by the first projected
  part they falsify.
*/
module ProjMc {
  import opened FiniteSets
  import opened Cnf
  import opened Counting
  import opened ModelSum
  import opened Residual
  import opened Components
  import opened ComponentFinder
  import opened Operation
  import opened Caching
  import opened Search
  import opened DpllCounter
  import opened ProjSplit
  import opened ProjCover

  // ---------- Models of the solver ----------

  /** A model of the open clauses over `vs`: it extends the trail and satisfies the assumptions. */
  ghost predicate ModelOf(q: Problem, vs: set<Var>, assumed: set<Lit>, trail: Asg, model: Asg) {
    && vs <= model.Keys
    && (forall x: Var :: x in trail ==> x in model && model[x] == trail[x])
    && Holds(q.clauses, vs, assumed, model)
  }

  /** `getModel` returns a model after a successful `solve`. */
  ghost predicate ModelsOk(q: Problem, model: (nat, seq<Lit>, Asg, seq<Var>) -> Asg) {
    forall t: nat, a: seq<Lit>, trail: Asg, vars: seq<Var> :: Ready(q, a, trail, vars) && Satisfiable(q.clauses, Elements(vars), Lits(a), trail) ==>
      ModelOf(q, Elements(vars), Lits(a), trail, model(t, a, trail, vars))
  }

  function Part(model: Asg, vs: set<Var>): Asg {
    map x | x in model && x in vs :: model[x]
  }

  lemma ModelIsWitness(q: Problem, vs: set<Var>, assumed: set<Lit>, trail: Asg, model: Asg)
    requires ModelOf(q, vs, assumed, trail, model) && Open(q.clauses, q.nbVar + 1, vs, trail)
    ensures Witness(vs, Res(q.clauses, vs, assumed), trail, Part(model, vs))
    ensures Satisfiable(q.clauses, vs, assumed, trail)
  {
    var b := trail + Part(model, vs);
    forall c | c in q.clauses && Touches(c, vs)
      ensures SatClause(c, b)
    {
      if SatClause(c, trail) {
        SatClauseGrows(c, trail, Part(model, vs));
      } else {
        SatClauseWithin(c, model, b);
      }
    }
    forall l | l in assumed && l.v in vs
      ensures TrueIn(l, b)
    {
      assert TrueIn(l, model);
    }
    assert Part(model, vs).Keys == vs;
    assert Witness(vs, Res(q.clauses, vs, assumed), trail, Part(model, vs));
  }

  /** The model survives the collection of units, on every part of the variables. */
  lemma ModelAfterUnits(q: Problem, assumption: seq<Lit>, trail: Asg, vars: seq<Var>, u: seq<Lit>, model: Asg, comp: seq<Var>)
    requires Ready(q, assumption, trail, vars) && UnitsOf(q, assumption, trail, vars, u)
    requires ModelOf(q, Elements(vars), Lits(assumption), trail, model)
    requires forall x: Var :: x in comp ==> x in vars
    ensures ModelOf(q, Elements(comp), {}, trail + AsgOf(u), model)
  {
    hide *;
    var vs := Elements(vars);
    ReadyRange(q, assumption, trail, vars);
    ModelIsWitness(q, vs, Lits(assumption), trail, model);
    UnitsForced(q, assumption, trail, vars, u, Part(model, vs));
    UnitsInModel(u, model, vs);
    ModelPart(q, assumption, trail, vars, u, model, comp);
  }

  lemma UnitsForced(q: Problem, assumption: seq<Lit>, trail: Asg, vars: seq<Var>, u: seq<Lit>, e: Asg)
    requires UnitsOf(q, assumption, trail, vars, u)
    requires Witness(Elements(vars), Res(q.clauses, Elements(vars), Lits(assumption)), trail, e)
    ensures DistinctVars(u) && forall l :: l in u ==> TrueIn(l, e)
  {
    hide Res;
    forall l | l in u
      ensures TrueIn(l, e)
    {
      assert Implied(q.clauses, Elements(vars), Lits(assumption), trail, l);
    }
  }

  lemma ModelPart(q: Problem, assumption: seq<Lit>, trail: Asg, vars: seq<Var>, u: seq<Lit>, model: Asg, comp: seq<Var>)
    requires ModelOf(q, Elements(vars), Lits(assumption), trail, model) && DistinctVars(u)
    requires forall x: Var :: x in AsgOf(u) ==> x in model && model[x] == AsgOf(u)[x]
    requires forall x: Var :: x in comp ==> x in vars
    ensures ModelOf(q, Elements(comp), {}, trail + AsgOf(u), model)
  {
    hide SatClause, AsgOf;
    assert forall c :: Touches(c, Elements(comp)) ==> Touches(c, Elements(vars));
  }

  lemma UnitsInModel(u: seq<Lit>, model: Asg, vs: set<Var>)
    requires DistinctVars(u) && forall l :: l in u ==> TrueIn(l, Part(model, vs))
    ensures forall x: Var :: x in AsgOf(u) ==> x in model && model[x] == AsgOf(u)[x]
  {
    forall x: Var | x in AsgOf(u)
      ensures x in model && model[x] == AsgOf(u)[x]
    {
      var l :| l in u && l.v == x;
      assert TrueIn(l, Part(model, vs)) && TrueIn(l, AsgOf(u));
    }
  }

  lemma RestIgnores(q: Problem, s: Split, v: Var, w: Var, model: Asg, t: bool)
    requires Structured(q, s) && v in s.part && w in s.part && w in model
    ensures RestOk(s, v, model[w := t]) <==> RestOk(s, v, model)
  {
    PartAvoids(q, s, v, w);
    assert model[w := t][w := model[w]] == model;
    forall k | k in s.rest[v] && k < |s.notProj|
      ensures SatClause(s.notProj[k].0, model[w := t]) <==> SatClause(s.notProj[k].0, model)
    {
      if SatClause(s.notProj[k].0, model) {
        SatOther(s.notProj[k].0, model, w, t);
      }
      if SatClause(s.notProj[k].0, model[w := t]) {
        SatOther(s.notProj[k].0, model[w := t], w, model[w]);
      }
    }
  }

  /** A selector whose remainders all hold may be set true in a model. */
  lemma FlipModel(q: Problem, s: Split, vs: set<Var>, assumed: set<Lit>, trail: Asg, model: Asg, v: Var)
    requires Structured(q, s) && ModelOf(q, vs, assumed, trail, model) && vs !! trail.Keys
    requires v in s.part && v in vs && RestOk(s, v, model) && forall l :: l in assumed ==> l != Lit(v, true)
    ensures ModelOf(q, vs, assumed + {Lit(v, false)}, trail, model[v := true])
    ensures forall w :: w in s.part ==> (RestOk(s, w, model[v := true]) <==> RestOk(s, w, model))
  {
    hide Structured, RestOk;
    FlipHolds(q, s, vs, assumed, v, model, true);
    hide Holds;
    HoldsMore(q.clauses, vs, assumed, Lit(v, false), model[v := true]);
    forall w | w in s.part
      ensures RestOk(s, w, model[v := true]) <==> RestOk(s, w, model)
    {
      RestIgnores(q, s, w, v, model, true);
    }
  }

  // ---------- Choices of selectors ----------

  /** `lits` decides exactly the selectors among `vars`. */
  ghost predicate Choice(s: Split, vars: seq<Var>, lits: seq<Lit>) {
    && DistinctVars(lits)
    && (forall l :: l in lits ==> l.v in s.part && l.v in vars)
    && (forall v :: v in s.part && v in vars ==> v in LitVars(lits))
  }

  /** The projected part of a false selector is not falsified by the trail. */
  ghost predicate Falsifiable(s: Split, trail: Asg, l: Lit) {
    l.v in s.part ==> exists k :: k in s.part[l.v] && !TrueIn(k.Neg(), trail)
  }

  /** No false selector can be set true next to the true ones. */
  ghost predicate Minimal(q: Problem, vs: set<Var>, trail: Asg, lits: seq<Lit>) {
    forall l :: l in lits && l.sign ==> !Satisfiable(q.clauses, vs, TrueOnes(Lits(lits)) + {l.Neg()}, trail)
  }

  lemma FewerAssumptions(q: Problem, vs: set<Var>, a1: set<Lit>, a2: set<Lit>, trail: Asg)
    requires Satisfiable(q.clauses, vs, a2, trail) && forall l :: l in a1 && l.v in vs ==> l in a2
    ensures Satisfiable(q.clauses, vs, a1, trail)
  {
    hide SatClause, Touches;
    var e :| Witness(vs, Res(q.clauses, vs, a2), trail, e);
    assert Witness(vs, Res(q.clauses, vs, a1), trail, e);
  }

  /** Next to a minimal choice, every model of the true selectors keeps the false ones false. */
  lemma TrueOnesSuffice(q: Problem, vs: set<Var>, trail: Asg, chosen: seq<Lit>, l: Lit)
    requires Minimal(q, vs, trail, chosen) && forall k :: k in chosen ==> k.v in vs
    requires Satisfiable(q.clauses, vs, TrueOnes(Lits(chosen)) + {l}, trail)
    ensures Satisfiable(q.clauses, vs, Lits(chosen) + {l}, trail)
  {
    hide SatClause, Touches;
    var e :| Witness(vs, Res(q.clauses, vs, TrueOnes(Lits(chosen)) + {l}), trail, e);
    forall k | k in chosen
      ensures TrueIn(k, trail + e)
    {
      if k.sign && !TrueIn(k, trail + e) {
        AddWitness(q, vs, TrueOnes(Lits(chosen)), l, k.Neg(), trail, e);
        assert false;
      }
    }
    hide Minimal;
    assert Witness(vs, Res(q.clauses, vs, Lits(chosen) + {l}), trail, e);
  }

  lemma AddWitness(q: Problem, vs: set<Var>, a: set<Lit>, l: Lit, k: Lit, trail: Asg, e: Asg)
    requires Witness(vs, Res(q.clauses, vs, a + {l}), trail, e) && TrueIn(k, trail + e)
    ensures Satisfiable(q.clauses, vs, a + {k}, trail)
  {
    hide SatClause, Touches;
    assert Witness(vs, Res(q.clauses, vs, a + {k}), trail, e);
  }

  lemma MinimalGrows(q: Problem, vs: set<Var>, trail: Asg, chosen: seq<Lit>, l: Lit)
    requires Minimal(q, vs, trail, chosen)
    requires l.sign ==> !Satisfiable(q.clauses, vs, TrueOnes(Lits(chosen)) + {l.Neg()}, trail)
    ensures Minimal(q, vs, trail, chosen + [l])
  {
    var more := chosen + [l];
    forall k | k in more && k.sign
      ensures !Satisfiable(q.clauses, vs, TrueOnes(Lits(more)) + {k.Neg()}, trail)
    {
      assert TrueOnes(Lits(chosen)) <= TrueOnes(Lits(more));
      if Satisfiable(q.clauses, vs, TrueOnes(Lits(more)) + {k.Neg()}, trail) {
        FewerAssumptions(q, vs, TrueOnes(Lits(chosen)) + {k.Neg()}, TrueOnes(Lits(more)) + {k.Neg()}, trail);
      }
    }
  }

  // ---------- The state of a refinement ----------

  /** The chosen literals are on the assumption stack; `open` are the false selectors still to be tried. */
  ghost predicate Refining(q: Problem, s: Split, base: seq<Lit>, trail: Asg, vars: seq<Var>, orig: seq<Lit>, chosen: seq<Lit>, open: seq<Lit>) {
    && Choice(s, vars, chosen + open)
    && (forall l :: l in open ==> l.sign && l in orig)
    && (forall l :: l in chosen && l.sign ==> l in orig)
    && (forall l :: l in orig && !l.sign ==> l in chosen)
    && Satisfiable(q.clauses, Elements(vars), Lits(base + chosen), trail)
    && Minimal(q, Elements(vars), trail, chosen)
  }

  lemma ChosenReady(q: Problem, s: Split, base: seq<Lit>, trail: Asg, vars: seq<Var>, chosen: seq<Lit>, open: seq<Lit>)
    requires ComponentReady(q, base, trail, vars) && Choice(s, vars, chosen + open)
    ensures Ready(q, base + chosen, trail, vars) && Elements(vars) !! trail.Keys
    ensures open != [] ==> open[0].v in s.part && open[0].v in vars && Ready(q, base + chosen + [open[0].Neg()], trail, vars)
    ensures open != [] ==> forall k :: k in base + chosen ==> k.v != open[0].v
    ensures forall k :: k in chosen ==> k.v in Elements(vars) && k.v in vars
  {
    hide Closed, Satisfiable;
    assert forall l :: l in chosen ==> l in chosen + open;
    assert forall i :: 0 <= i < |chosen| ==> (chosen + open)[i] == chosen[i];
    if open != [] {
      assert (chosen + open)[|chosen|] == open[0];
      assert open[0] in chosen + open;
    }
  }

  lemma RefiningChoice(q: Problem, s: Split, base: seq<Lit>, trail: Asg, vars: seq<Var>, orig: seq<Lit>, chosen: seq<Lit>, open: seq<Lit>)
    requires Refining(q, s, base, trail, vars, orig, chosen, open)
    ensures Choice(s, vars, chosen + open)
  {
    hide Choice, Satisfiable, Minimal;
  }

  /** The solver accepted `l` true: it joins the choice. */
  lemma Accept(q: Problem, s: Split, base: seq<Lit>, trail: Asg, vars: seq<Var>, orig: seq<Lit>, chosen: seq<Lit>, open: seq<Lit>)
    requires Refining(q, s, base, trail, vars, orig, chosen, open) && open != []
    requires Satisfiable(q.clauses, Elements(vars), Lits(base + (chosen + [open[0].Neg()])), trail)
    ensures Refining(q, s, base, trail, vars, orig, chosen + [open[0].Neg()], open[1..])
  {
    hide Satisfiable, Minimal;
    ChoiceMoved(s, vars, chosen, open, open[0].Neg());
    MinimalGrows(q, Elements(vars), trail, chosen, open[0].Neg());
  }

  lemma ChoiceMoved(s: Split, vars: seq<Var>, chosen: seq<Lit>, open: seq<Lit>, l: Lit)
    requires Choice(s, vars, chosen + open) && open != [] && l.v == open[0].v
    ensures Choice(s, vars, chosen + [l] + open[1..])
  {
    var a, b := chosen + open, chosen + [l] + open[1..];
    assert |a| == |b| && forall i :: 0 <= i < |a| ==> b[i].v == a[i].v;
    forall v | v in s.part && v in vars
      ensures v in LitVars(b)
    {
      var k :| k in a && k.v == v;
      var i :| 0 <= i < |a| && a[i] == k;
      assert b[i] in b;
    }
    forall k | k in b
      ensures k.v in s.part && k.v in vars
    {
      var i :| 0 <= i < |b| && b[i] == k;
      assert a[i] in a;
    }
  }

  /** The solver refused `l` true: its negation joins the choice. */
  lemma Refuse(q: Problem, s: Split, base: seq<Lit>, trail: Asg, vars: seq<Var>, orig: seq<Lit>, chosen: seq<Lit>, open: seq<Lit>)
    requires Refining(q, s, base, trail, vars, orig, chosen, open) && open != [] && Elements(vars) !! trail.Keys
    requires forall l :: l in base ==> l.v !in vars
    requires !Satisfiable(q.clauses, Elements(vars), Lits(base + chosen + [open[0].Neg()]), trail)
    ensures Refining(q, s, base, trail, vars, orig, chosen + [open[0]], open[1..])
  {
    hide Satisfiable, Minimal;
    var l, vs := open[0], Elements(vars);
    assert l in chosen + open && l.v in vs;
    assert forall k :: k in chosen ==> k in chosen + open;
    ChoiceMoved(s, vars, chosen, open, l);
    RefusedAlone(q, vs, trail, base, chosen, l);
    MinimalGrows(q, vs, trail, chosen, l);
    RefusedSatisfiable(q, vs, trail, base, chosen, l);
  }

  lemma RefusedAlone(q: Problem, vs: set<Var>, trail: Asg, base: seq<Lit>, chosen: seq<Lit>, l: Lit)
    requires Minimal(q, vs, trail, chosen) && forall k :: k in chosen ==> k.v in vs
    requires forall k :: k in base ==> k.v !in vs
    requires !Satisfiable(q.clauses, vs, Lits(base + chosen + [l.Neg()]), trail)
    ensures !Satisfiable(q.clauses, vs, TrueOnes(Lits(chosen)) + {l.Neg()}, trail)
  {
    hide Satisfiable, Minimal;
    if Satisfiable(q.clauses, vs, TrueOnes(Lits(chosen)) + {l.Neg()}, trail) {
      TrueOnesSuffice(q, vs, trail, chosen, l.Neg());
      FewerAssumptions(q, vs, Lits(base + chosen + [l.Neg()]), Lits(chosen) + {l.Neg()}, trail);
      assert false;
    }
  }

  lemma RefusedSatisfiable(q: Problem, vs: set<Var>, trail: Asg, base: seq<Lit>, chosen: seq<Lit>, l: Lit)
    requires Satisfiable(q.clauses, vs, Lits(base + chosen), trail) && l.v in vs
    requires !Satisfiable(q.clauses, vs, Lits(base + chosen + [l.Neg()]), trail)
    ensures Satisfiable(q.clauses, vs, Lits(base + (chosen + [l])), trail)
  {
    hide SatClause, Touches;
    var e :| Witness(vs, Res(q.clauses, vs, Lits(base + chosen)), trail, e);
    MoreLits(base, chosen, l);
    OneMore(q, vs, trail, base + chosen, l, e);
    OneMore(q, vs, trail, base + chosen, l.Neg(), e);
  }

  lemma OneMore(q: Problem, vs: set<Var>, trail: Asg, base: seq<Lit>, l: Lit, e: Asg)
    requires Witness(vs, Res(q.clauses, vs, Lits(base)), trail, e)
    ensures TrueIn(l, trail + e) ==> Satisfiable(q.clauses, vs, Lits(base + [l]), trail)
    ensures l.v in vs ==> TrueIn(l, trail + e) || TrueIn(l.Neg(), trail + e)
  {
    hide SatClause, Touches;
    if TrueIn(l, trail + e) {
      assert Lits(base + [l]) == Lits(base) + {l};
      assert Witness(vs, Res(q.clauses, vs, Lits(base + [l])), trail, e);
    }
  }

  /** A selector whose remainders hold in the model of the choice joins it true, without asking the solver. */
  lemma Absorb(q: Problem, s: Split, base: seq<Lit>, trail: Asg, vars: seq<Var>, orig: seq<Lit>, chosen: seq<Lit>, open: seq<Lit>, model: Asg)
      returns (model': Asg)
    requires Refining(q, s, base, trail, vars, orig, chosen, open) && open != [] && Structured(q, s)
    requires Open(q.clauses, q.nbVar + 1, Elements(vars), trail) && forall l :: l in base ==> l.v !in vars
    requires ModelOf(q, Elements(vars), Lits(base + chosen), trail, model) && RestOk(s, open[0].v, model)
    ensures Refining(q, s, base, trail, vars, orig, chosen + [open[0].Neg()], open[1..])
    ensures ModelOf(q, Elements(vars), Lits(base + (chosen + [open[0].Neg()])), trail, model')
    ensures forall w :: w in s.part ==> (RestOk(s, w, model') <==> RestOk(s, w, model))
  {
    var l, vs := open[0], Elements(vars);
    assert l in chosen + open && l.sign && l == Lit(l.v, true) && l.v in vs && l.v in s.part && l.Neg() == Lit(l.v, false);
    NotChosen(s, base, vars, chosen, open);
    hide *;
    FlipModel(q, s, vs, Lits(base + chosen), trail, model, l.v);
    model' := model[l.v := true];
    MoreLits(base, chosen, l.Neg());
    ModelIsWitness(q, vs, Lits(base + (chosen + [l.Neg()])), trail, model');
    Accept(q, s, base, trail, vars, orig, chosen, open);
  }

  lemma NotChosen(s: Split, base: seq<Lit>, vars: seq<Var>, chosen: seq<Lit>, open: seq<Lit>)
    requires Choice(s, vars, chosen + open) && open != [] && forall l :: l in base ==> l.v !in vars
    ensures forall k :: k in Lits(base + chosen) ==> k.v != open[0].v
  {
    assert (chosen + open)[|chosen|] == open[0] && open[0] in chosen + open;
    forall k | k in chosen
      ensures k.v != open[0].v
    {
      var i :| 0 <= i < |chosen| && chosen[i] == k;
      assert (chosen + open)[i] == k;
    }
  }

  lemma MoreLits(base: seq<Lit>, chosen: seq<Lit>, l: Lit)
    ensures Lits(base + (chosen + [l])) == Lits(base + chosen) + {l}
    ensures base + chosen + [l] == base + (chosen + [l])
  {
  }

  // ---------- Extracted choices ----------

  ghost predicate Extracted(s: Split, model: Asg, lits: seq<Lit>) {
    forall l :: l in lits ==> (l.sign <==> !RestOk(s, l.v, model))
  }

  /** Of `lits`, those whose remainders the model satisfies are in `flipped`, negated, and the others in `kept`. */
  ghost predicate Parted(s: Split, model: Asg, lits: seq<Lit>, kept: seq<Lit>, flipped: seq<Lit>) {
    (forall l :: l in kept <==> l in lits && !RestOk(s, l.v, model)) &&
    (forall l :: l in flipped <==> l.Neg() in lits && RestOk(s, l.v, model))
  }

  lemma NothingParted(s: Split, model: Asg)
    ensures Parted(s, model, [], [], [])
  {
  }

  lemma PartedNext(s: Split, model: Asg, lits: seq<Lit>, kept: seq<Lit>, flipped: seq<Lit>, l: Lit)
    requires Parted(s, model, lits, kept, flipped)
    ensures RestOk(s, l.v, model) ==> Parted(s, model, lits + [l], kept, flipped + [l.Neg()])
    ensures !RestOk(s, l.v, model) ==> Parted(s, model, lits + [l], kept + [l], flipped)
  {
    hide RestOk;
    assert forall k: Lit :: k.Neg() == l <==> k == l.Neg();
    assert forall k: Lit :: k in kept + [l] <==> k in kept || k == l;
  }

  lemma FalseOnesLack(s: Split, model: Asg, lits: seq<Lit>)
    requires Extracted(s, model, lits)
    ensures forall l :: l in lits && l.sign ==> !RestOk(s, l.v, model)
  {
  }

  /** The true selectors of an extracted choice are satisfiable together. */
  lemma {:induction false} ExtractedModel(q: Problem, s: Split, vars: seq<Var>, trail: Asg, model: Asg, lits: seq<Lit>, i: nat) returns (model': Asg)
    requires Structured(q, s) && Choice(s, vars, lits) && Extracted(s, model, lits) && i <= |lits| && Elements(vars) !! trail.Keys
    requires ModelOf(q, Elements(vars), {}, trail, model)
    ensures ModelOf(q, Elements(vars), TrueOnes(Lits(lits[..i])), trail, model')
    ensures forall w :: w in s.part ==> (RestOk(s, w, model') <==> RestOk(s, w, model))
  {
    hide *;
    if i == 0 {
      model' := model;
      NoTrueOnes(lits);
    } else {
      model' := ExtractedModel(q, s, vars, trail, model, lits, i - 1);
      var l := lits[i - 1];
      ExtractedStep(s, vars, model, lits, i - 1);
      if !l.sign {
        FlipModel(q, s, Elements(vars), TrueOnes(Lits(lits[..i - 1])), trail, model', l.v);
        model' := model'[l.v := true];
      }
    }
  }

  lemma NoTrueOnes(lits: seq<Lit>)
    ensures TrueOnes(Lits(lits[..0])) == {}
  {
  }

  lemma ExtractedStep(s: Split, vars: seq<Var>, model: Asg, lits: seq<Lit>, i: nat)
    requires Choice(s, vars, lits) && Extracted(s, model, lits) && i < |lits|
    ensures lits[i].v in s.part && lits[i].v in Elements(vars)
    ensures !lits[i].sign ==> RestOk(s, lits[i].v, model) && lits[i] == Lit(lits[i].v, false)
    ensures TrueOnes(Lits(lits[..i + 1])) == TrueOnes(Lits(lits[..i])) + if lits[i].sign then {} else {Lit(lits[i].v, false)}
    ensures TrueOnes(Lits(lits[..i])) + {} == TrueOnes(Lits(lits[..i]))
    ensures forall l :: l in TrueOnes(Lits(lits[..i])) ==> l != Lit(lits[i].v, true)
  {
    assert lits[i] in lits;
    assert lits[..i + 1] == lits[..i] + [lits[i]];
  }

  lemma ExtractedChoice(q: Problem, s: Split, vars: seq<Var>, trail: Asg, model: Asg, lits: seq<Lit>)
    requires Structured(q, s) && Choice(s, vars, lits) && Extracted(s, model, lits)
    requires Open(q.clauses, q.nbVar + 1, Elements(vars), trail) && ModelOf(q, Elements(vars), {}, trail, model)
    ensures Satisfiable(q.clauses, Elements(vars), TrueOnes(Lits(lits)), trail)
    ensures forall l :: l in lits && l.sign ==> Falsifiable(s, trail, l)
  {
    assert lits[..|lits|] == lits;
    var model' := ExtractedModel(q, s, vars, trail, model, lits, |lits|);
    ModelIsWitness(q, Elements(vars), TrueOnes(Lits(lits)), trail, model');
    forall l | l in lits && l.sign
      ensures Falsifiable(s, trail, l)
    {
      FalseIsFalsifiable(q, s, Elements(vars), trail, model, l);
    }
  }

  lemma FalseIsFalsifiable(q: Problem, s: Split, vs: set<Var>, trail: Asg, model: Asg, l: Lit)
    requires Structured(q, s) && l.v in s.part && l.v in vs && !RestOk(s, l.v, model) && ModelOf(q, vs, {}, trail, model)
    ensures Falsifiable(s, trail, l)
  {
    hide Structured, RestOk, Holds;
    SelectorFacts(q, s, vs, {}, l.v, model);
    SatIn(s.part[l.v], model);
    var k :| k in s.part[l.v] && TrueIn(k, model);
    assert !TrueIn(k.Neg(), trail);
  }

  class ProjMCMethod {
    const q: Problem
    const split: Split
    const oracles: Oracles
    const model: (nat, seq<Lit>, Asg, seq<Var>) -> Asg
    const solver: WrapperSolver
    const specs: CnfManager
    const cache: CacheManager<real>
    const counter: DpllStyleMethod
    const refinement: bool

    var nbCallRec: nat
    var nbSplit: nat

    /** Everything the inner counter owns is separate from what this method owns. */
    ghost predicate Separate() {
      && solver != counter.solver && specs != counter.specs && cache != counter.cache
      && specs.parent != counter.specs.parent && specs.parent != counter.specs.size
      && specs.size != counter.specs.parent && specs.size != counter.specs.size
      && specs.pos != counter.specs.pos && specs.markView != counter.specs.markView
    }

    ghost function Footprint(): (r: set<object>)
      ensures this in r && solver in r && cache in r && specs in r
      ensures specs.parent in r && specs.size in r && specs.pos in r && specs.markView in r
      ensures counter in r && counter.solver in r && counter.cache in r && counter.specs in r
      ensures counter.specs.parent in r && counter.specs.size in r && counter.specs.pos in r && counter.specs.markView in r
    {
      {this, solver, cache, specs, specs.parent, specs.size, specs.pos, specs.markView,
       counter, counter.solver, counter.cache, counter.specs,
       counter.specs.parent, counter.specs.size, counter.specs.pos, counter.specs.markView}
    }

    ghost predicate Inv()
      reads cache, specs`mustUnMark, specs.pos, specs.markView
      reads counter.cache, counter.specs`mustUnMark, counter.specs`value, counter.specs.pos, counter.specs.markView
      ensures Inv() ==> q.Consistent() && q.projected && Structured(q, split) && OraclesOk(q, oracles) && ModelsOk(q, model)
      ensures Inv() ==> solver.problem == q && solver.oracles == oracles
      ensures Inv() ==> specs.clauses == q.clauses && specs.nbVar == q.nbVar && specs.Clean()
      ensures Inv() ==> cache.Valid() && counter.Inv() && counter.specs.value == map[] && counter.problem == Inner(q, split)
    {
      && q.Consistent() && Structured(q, split) && OraclesOk(q, oracles) && ModelsOk(q, model)
      && Separate()
      && solver.problem == q && solver.oracles == oracles
      && specs.clauses == q.clauses && specs.nbVar == q.nbVar && specs.Clean()
      && cache.Valid() && (forall b :: b in cache.inserted ==> EntrySound(q, oracles, q.nbVar, b))
      && BucketOk(q, oracles, q.nbVar)
      && counter.Inv() && counter.specs.value == map[] && counter.problem == Inner(q, split)
    }

    constructor (q: Problem, split: Split, oracles: Oracles, model: (nat, seq<Lit>, Asg, seq<Var>) -> Asg,
        solver: WrapperSolver, specs: CnfManager, cache: CacheManager<real>, counter: DpllStyleMethod, refinement: bool)
      requires q.Consistent() && Structured(q, split) && OraclesOk(q, oracles) && BucketOk(q, oracles, q.nbVar) && ModelsOk(q, model)
      requires solver.problem == q && solver.oracles == oracles && solver.assumption == []
      requires specs.clauses == q.clauses && specs.nbVar == q.nbVar && specs.Clean() && specs.value == map[]
      requires cache.Valid() && cache.inserted == {}
      requires counter.Inv() && counter.specs.value == map[] && counter.problem == Inner(q, split)
      requires solver != counter.solver && specs != counter.specs && cache != counter.cache
      requires {specs.parent, specs.size} !! {counter.specs.parent, counter.specs.size}
      requires specs.pos != counter.specs.pos && specs.markView != counter.specs.markView
      ensures Inv() && this.q == q && this.split == split && this.solver == solver && this.specs == specs
      ensures this.cache == cache && this.counter == counter
    {
      this.q, this.split, this.oracles, this.model := q, split, oracles, model;
      this.solver, this.specs, this.cache, this.counter, this.refinement := solver, specs, cache, counter, refinement;
      nbCallRec, nbSplit := 0, 0;
    }

    /** The literals of selector remainders under a model; undefined variables are skipped. */
    method AllSat(v: Var, m: Asg) returns (allSAT: bool)
      requires Structured(q, split) && v in split.part
      ensures allSAT <==> RestOk(split, v, m)
    {
      RestIndices(q, split, v);
      hide Structured, SatClause;
      allSAT := true;
      for i := 0 to |split.rest[v]|
        invariant allSAT
        invariant forall k :: 0 <= k < i ==> split.rest[v][k] < |split.notProj| && SatClause(split.notProj[split.rest[v][k]].0, m)
      {
        var idx := split.rest[v][i];
        assert idx in split.rest[v];
        var cl := split.notProj[idx].0;
        var isSAT := IsSat(cl, m);
        allSAT := isSAT;
        if !allSAT {
          assert idx in split.rest[v] && !SatClause(split.notProj[idx].0, m);
          break;
        }
      }
    }

    method IsSat(cl: Clause, m: Asg) returns (isSAT: bool)
      ensures isSAT <==> SatClause(cl, m)
    {
      isSAT := false;
      for j := 0 to |cl|
        invariant !isSAT && forall k :: 0 <= k < j ==> !TrueIn(cl[k], m)
      {
        var l := cl[j];
        if l.v !in m {
          continue;
        } else if l.sign {
          isSAT := !m[l.v];
        } else {
          isSAT := m[l.v];
        }
        if isSAT { break; }
      }
    }

    /** Selectors whose remainders the model satisfies stay true, the others become false. */
    method ExtractSelectorFalsifiedNProj(setOfVar: seq<Var>, m: Asg) returns (selector: seq<Lit>)
      requires Structured(q, split) && NoDup(setOfVar)
      requires forall l :: l in solver.assumption ==> l.v !in setOfVar
      ensures Choice(split, setOfVar, selector) && Extracted(split, m, selector)
    {
      hide RestOk;
      selector := [];
      for i := 0 to |setOfVar|
        invariant Choice(split, setOfVar[..i], selector) && Extracted(split, m, selector)
      {
        var v := setOfVar[i];
        ChoiceNext(split, setOfVar, i, selector, Lit(v, true));
        ChoiceNext(split, setOfVar, i, selector, Lit(v, false));
        if v !in split.part { continue; }
        var allSAT := AllSat(v, m);
        selector := selector + [Lit(v, !allSAT)];
      }
      assert setOfVar[..|setOfVar|] == setOfVar;
    }

    /**
      Flips false selectors to true while the assumptions stay satisfiable.  No selector that
      is still false at the end can be set true next to the true ones.
    */
    method Refine(setOfVar: seq<Var>, selector0: seq<Lit>) returns (selector: seq<Lit>)
      requires OraclesOk(q, oracles) && ModelsOk(q, model) && Structured(q, split) && solver.problem == q && solver.oracles == oracles
      requires ComponentReady(q, solver.assumption, specs.value, setOfVar) && Choice(split, setOfVar, selector0)
      requires Satisfiable(q.clauses, Elements(setOfVar), TrueOnes(Lits(selector0)), specs.value)
      modifies solver`assumption, solver`clock
      ensures solver.assumption == old(solver.assumption)
      ensures Choice(split, setOfVar, selector)
      ensures forall l :: l in selector0 && !l.sign ==> l in selector
      ensures forall l :: l in selector && l.sign ==> l in selector0
      ensures Satisfiable(q.clauses, Elements(setOfVar), TrueOnes(Lits(selector)), specs.value)
      ensures Minimal(q, Elements(setOfVar), specs.value, selector)
    {
      hide *;
      ghost var base := solver.assumption;
      var initSizeAssumption := |solver.assumption|;
      ComponentParts(q, base, specs.value, setOfVar);
      var falseSelector;
      selector, falseSelector := SplitSelectors(setOfVar, selector0);
      StartRefining(q, split, base, specs.value, setOfVar, selector0, selector, falseSelector);
      var i := 0;
      assert falseSelector[0..] == falseSelector;
      while i < |falseSelector|
        invariant 0 <= i <= |falseSelector| && solver.assumption == base + selector
        invariant Refining(q, split, base, specs.value, setOfVar, selector0, selector, falseSelector[i..])
        decreases |falseSelector| - i
      {
        var l := falseSelector[i];
        ghost var open := falseSelector[i..];
        assert open[0] == l && open[1..] == falseSelector[i + 1..];
        RefiningChoice(q, split, base, specs.value, setOfVar, selector0, selector, open);
        ChosenReady(q, split, base, specs.value, setOfVar, selector, open);
        NegVar(l);
        solver.PushAssumption(l.Neg());
        var sat := solver.Solve(specs.value, setOfVar);
        MoreLits(base, selector, l.Neg());
        if sat {
          Accept(q, split, base, specs.value, setOfVar, selector0, selector, open);
          var m := GetModel(setOfVar);
          selector := selector + [l.Neg()];
          selector, falseSelector := AbsorbOthers(setOfVar, selector0, selector, falseSelector, i, m, base);
        } else {
          Refuse(q, split, base, specs.value, setOfVar, selector0, selector, open);
          MoreLits(base, selector, l);
          selector := selector + [l];
          solver.PopAssumption(1);
          solver.PushAssumption(l);
        }
        i := i + 1;
      }
      assert falseSelector[i..] == [];
      DoneRefining(q, split, base, specs.value, setOfVar, selector0, selector);
      solver.PopAssumption(|solver.assumption| - initSizeAssumption);
    }

    method GetModel(setOfVar: seq<Var>) returns (m: Asg)
      requires ModelsOk(q, model) && solver.problem == q
      requires Ready(q, solver.assumption, specs.value, setOfVar) && Satisfiable(q.clauses, Elements(setOfVar), Lits(solver.assumption), specs.value)
      ensures ModelOf(q, Elements(setOfVar), Lits(solver.assumption), specs.value, m)
    {
      m := model(solver.clock, solver.assumption, specs.value, setOfVar);
    }

    /** Keeps the true selectors and pushes them; returns the false ones separately. */
    method SplitSelectors(setOfVar: seq<Var>, selector0: seq<Lit>) returns (selector: seq<Lit>, falseSelector: seq<Lit>)
      requires Choice(split, setOfVar, selector0) && forall l :: l in solver.assumption ==> l.v !in setOfVar
      modifies solver`assumption
      ensures selector == Filter(selector0, IsTrueOne) && falseSelector == Filter(selector0, IsFalseOne)
      ensures solver.assumption == old(solver.assumption) + selector
    {
      hide Choice, Filter;
      selector, falseSelector := selector0, [];
      var j := 0;
      NothingFiltered(selector0);
      for i := 0 to |selector|
        invariant 0 <= j <= i <= |selector| == |selector0|
        invariant selector[..j] == Filter(selector0[..i], IsTrueOne) && falseSelector == Filter(selector0[..i], IsFalseOne)
        invariant forall t :: i <= t < |selector| ==> selector[t] == selector0[t]
        invariant solver.assumption == old(solver.assumption) + selector[..j]
      {
        var l := selector[i];
        FilteredNext(selector0, i);
        SelectorNew(split, setOfVar, selector0, i);
        if l.sign {
          falseSelector := falseSelector + [l];
        } else {
          selector := selector[j := l];
          j := j + 1;
          solver.PushAssumption(l);
        }
      }
      assert selector0[..|selector|] == selector0;
      selector := selector[..j];
    }

    /** Moves every later false selector whose remainders hold in the model to the true ones. */
    method AbsorbOthers(setOfVar: seq<Var>, ghost orig: seq<Lit>, selector0: seq<Lit>, falseSelector0: seq<Lit>, i: nat, m: Asg, ghost base: seq<Lit>)
      returns (selector: seq<Lit>, falseSelector: seq<Lit>)
      requires Structured(q, split) && ComponentReady(q, base, specs.value, setOfVar)
      requires i < |falseSelector0| && solver.assumption == base + selector0
      requires Refining(q, split, base, specs.value, setOfVar, orig, selector0, falseSelector0[i + 1..])
      requires ModelOf(q, Elements(setOfVar), Lits(base + selector0), specs.value, m)
      modifies solver`assumption
      ensures i < |falseSelector| <= |falseSelector0| && solver.assumption == base + selector
      ensures Refining(q, split, base, specs.value, setOfVar, orig, selector, falseSelector[i + 1..])
      ensures falseSelector[..i + 1] == falseSelector0[..i + 1] && selector0 <= selector
      ensures Parted(split, m, falseSelector0[i + 1..], falseSelector[i + 1..], selector[|selector0|..])
    {
      hide *;
      selector, falseSelector := selector0, falseSelector0;
      ghost var m' := m;
      var kj := i + 1;
      NothingParted(split, m);
      assert falseSelector0[i + 1..i + 1] == [] && selector[|selector0|..] == [];
      ComponentParts(q, base, specs.value, setOfVar);
      assert falseSelector0[i + 1..] + falseSelector[i + 1..kj] == falseSelector0[i + 1..];
      for ki := i + 1 to |falseSelector|
        invariant i + 1 <= kj <= ki <= |falseSelector| == |falseSelector0|
        invariant forall t :: ki <= t < |falseSelector| ==> falseSelector[t] == falseSelector0[t]
        invariant solver.assumption == base + selector && selector0 <= selector && falseSelector[..i + 1] == falseSelector0[..i + 1]
        invariant Parted(split, m, falseSelector0[i + 1..ki], falseSelector[i + 1..kj], selector[|selector0|..])
        invariant Refining(q, split, base, specs.value, setOfVar, orig, selector, falseSelector0[ki..] + falseSelector[i + 1..kj])
        invariant ModelOf(q, Elements(setOfVar), Lits(base + selector), specs.value, m')
        invariant forall w :: w in split.part ==> (RestOk(split, w, m') <==> RestOk(split, w, m))
      {
        var l := falseSelector[ki];
        ghost var open := falseSelector0[ki..] + falseSelector[i + 1..kj];
        assert open[0] == l && open[1..] == falseSelector0[ki + 1..] + falseSelector[i + 1..kj];
        RefiningChoice(q, split, base, specs.value, setOfVar, orig, selector, open);
        ChosenReady(q, split, base, specs.value, setOfVar, selector, open);
        var allSAT := AllSat(l.v, m);
        PartedNext(split, m, falseSelector0[i + 1..ki], falseSelector[i + 1..kj], selector[|selector0|..], l);
        assert falseSelector0[i + 1..ki + 1] == falseSelector0[i + 1..ki] + [l];
        if allSAT {
          assert (selector + [l.Neg()])[|selector0|..] == selector[|selector0|..] + [l.Neg()];
          m' := Absorb(q, split, base, specs.value, setOfVar, orig, selector, open, m');
          selector := selector + [l.Neg()];
          NegVar(l);
          solver.PushAssumption(l.Neg());
        } else {
          Rotate(q, split, base, specs.value, setOfVar, orig, selector, open);
          assert falseSelector[kj := l][i + 1..kj + 1] == falseSelector[i + 1..kj] + [l];
          falseSelector := falseSelector[kj := l];
          kj := kj + 1;
          assert open[1..] + [l] == falseSelector0[ki + 1..] + falseSelector[i + 1..kj];
        }
      }
      falseSelector := falseSelector[..kj];
      assert falseSelector0[|falseSelector0|..] + falseSelector[i + 1..] == falseSelector[i + 1..];
      assert falseSelector0[i + 1..|falseSelector0|] == falseSelector0[i + 1..];
    }

    // ---------- The recursion ----------

    /** The weighted projected count of the open clauses over `setOfVar` under the assumptions. */
    method Compute_(setOfVar: seq<Var>) returns (r: real)
      requires Inv() && Ready(q, solver.assumption, specs.value, setOfVar) && Covered(solver.assumption, specs.value)
      modifies Footprint()
      ensures Inv() && solver.assumption == old(solver.assumption) && specs.value == old(specs.value)
      ensures r == CountOf(q, setOfVar, solver.assumption, specs.value)
      decreases Bound(solver.assumption, setOfVar), 5
    {
      hide *;
      nbCallRec := nbCallRec + 1;
      SeparateFacts();
      ghost var base, trail := solver.assumption, specs.value;
      var initSizeAssumption := |solver.assumption|;
      ReadyRange(q, base, trail, setOfVar);
      var sat := solver.Solve(specs.value, setOfVar);
      if !sat {
        UnsatCount(q, base, trail, setOfVar);
        return 0.0;
      }
      var m := GetModel(setOfVar);
      var units := solver.WhichAreUnits(specs.value, setOfVar);
      UnitsUnassigned(q, base, trail, setOfVar, units);
      specs.PreUpdate(units);
      var ret, freeVariable;
      ghost var varConnected;
      ret, freeVariable, varConnected := ComputeOpen(setOfVar, units, m, base, trail);
      specs.PostUpdate(units);
      solver.PopAssumption(|solver.assumption| - initSizeAssumption);
      ScaledIsCount(q, base, trail, setOfVar, units, varConnected, freeVariable, ret);
      r := Scaled(units, freeVariable, ret);
    }

    /** Weighs the projected units and free variables. */
    method Scaled(units: seq<Lit>, freeVariable: seq<Var>, ret: real) returns (r: real)
      ensures r == ret * UnitFree(q, KeepLits(q, units), KeepVars(q, freeVariable))
    {
      hide *;
      var keptUnits := ExpelNoDecisionLit(q, units);
      var keptFree := ExpelNoDecisionVar(q, freeVariable);
      var w := ComputeWeightUnitFree(q, keptUnits, keptFree);
      r := ret * w;
    }

    /** With the units assigned: assumes them, and counts the components. */
    method ComputeOpen(setOfVar: seq<Var>, units: seq<Lit>, m: Asg, ghost base: seq<Lit>, ghost trail: Asg)
      returns (ret: real, freeVariable: seq<Var>, ghost varConnected: seq<seq<Var>>)
      requires Inv() && Ready(q, base, trail, setOfVar) && Covered(base, trail) && UnitsOf(q, base, trail, setOfVar, units)
      requires DistinctVars(units) && specs.value == trail + AsgOf(units) && solver.assumption == base
      requires Satisfiable(q.clauses, Elements(setOfVar), Lits(base), trail) && ModelOf(q, Elements(setOfVar), Lits(base), trail, m)
      modifies Footprint()
      ensures Inv() && base <= solver.assumption && specs.value == old(specs.value)
      ensures IsSplit(q.clauses, setOfVar, trail + AsgOf(units), varConnected, freeVariable)
      ensures ret == CompsCount(q.M(), q.clauses, trail + AsgOf(units), varConnected, 0)
      decreases Bound(base, setOfVar), 4, 1
    {
      hide *;
      SeparateFacts();
      UnitsNotNegated(q, base, trail, setOfVar, units);
      PushUnits(units);
      UnitsPushed(q, base, trail, setOfVar, units, solver.assumption);
      ReadyRange(q, base, trail, setOfVar);
      var comps;
      comps, freeVariable := specs.ComputeConnectedComponent(setOfVar);
      KeepsInv();
      varConnected := comps;
      PartsReady(q, base, trail, setOfVar, units, comps, freeVariable);
      PartsPushed(q, base, solver.assumption, specs.value, comps);
      AllModels(q, base, trail, setOfVar, units, m, comps, freeVariable);
      PartsSmaller(q, base, trail, setOfVar, units, comps, freeVariable);
      ret := ComputeComponents(comps, m, Bound(base, setOfVar));
    }

    /** Adds the units that are not assumed yet to the assumptions. */
    method PushUnits(units: seq<Lit>)
      requires DistinctVars(units) && DistinctVars(solver.assumption)
      requires forall l :: l in units ==> l.Neg() !in solver.assumption
      modifies solver`assumption
      ensures solver.assumption == old(solver.assumption) + Missing(units, old(solver.assumption))
      ensures DistinctVars(solver.assumption)
    {
      ghost var base := solver.assumption;
      for i := 0 to |units|
        invariant solver.assumption == base + Missing(units[..i], base)
        invariant DistinctVars(solver.assumption)
      {
        var l := units[i];
        assert l in units;
        MissingNext(units, base, i);
        if l !in solver.assumption {
          solver.PushAssumption(l);
        }
      }
      assert units[..|units|] == units;
    }

    method ComputeComponents(varConnected: seq<seq<Var>>, m: Asg, ghost bound: nat) returns (ret: real)
      requires Inv() && Covered(solver.assumption, specs.value)
      requires forall i :: 0 <= i < |varConnected| ==> ComponentReady(q, solver.assumption, specs.value, varConnected[i])
      requires forall i :: 0 <= i < |varConnected| ==> ModelOf(q, Elements(varConnected[i]), {}, specs.value, m)
      requires forall i :: 0 <= i < |varConnected| ==> |varConnected[i]| <= bound && (|varConnected| > 1 ==> |varConnected[i]| < bound)
      modifies Footprint()
      ensures Inv() && solver.assumption == old(solver.assumption) && specs.value == old(specs.value)
      ensures ret == CompsCount(q.M(), q.clauses, specs.value, varConnected, 0)
      decreases bound, 4, 0
    {
      hide *;
      var reallyPresent := Concat(varConnected);
      var projectSetOfVar := ProjectVars(reallyPresent);
      ret := 1.0;
      if |projectSetOfVar| == 0 {
        NothingProjected(q, solver.assumption, specs.value, varConnected, 0);
      } else if |varConnected| > 1 {
        ghost var tab: seq<real> := [];
        NoProduct(1.0);
        for cp := 0 to |varConnected|
          invariant Inv() && solver.assumption == old(solver.assumption) && specs.value == old(specs.value)
          invariant |tab| == cp && ret == 1.0 * Operation.Product(tab)
          invariant forall i :: 0 <= i < cp ==> tab[i] == CountOf(q, varConnected[i], [], specs.value)
        {
          ComponentCall(q, solver.assumption, specs.value, varConnected[cp]);
          var c := Compute_(varConnected[cp]);
          ProductSnoc(tab, c, 1.0, ret);
          tab := tab + [c];
          ret := ret * c;
        }
        nbSplit := nbSplit + |varConnected|;
        ComponentProduct(q, specs.value, varConnected, tab);
      } else if |varConnected| == 1 {
        assert reallyPresent == varConnected[0];
        ghost var chosen;
        ret, chosen := CountSingle(reallyPresent, m);
        SingleProduct(ret);
        ComponentProduct(q, specs.value, varConnected, [ret]);
      } else {
        NoComponent(q, specs.value);
      }
    }

    /** The variables of all components, one component after the other. */
    method Concat(varConnected: seq<seq<Var>>) returns (reallyPresent: seq<Var>)
      ensures forall v: Var :: v in reallyPresent <==> InSomeComponent(varConnected, v)
      ensures |varConnected| == 1 ==> reallyPresent == varConnected[0]
    {
      reallyPresent := [];
      for i := 0 to |varConnected|
        invariant forall v: Var :: v in reallyPresent <==> InSomeComponent(varConnected[..i], v)
        invariant i == 1 ==> reallyPresent == varConnected[0]
        invariant i == 0 ==> reallyPresent == []
      {
        ghost var before := reallyPresent;
        reallyPresent := reallyPresent + varConnected[i];
        forall v: Var
          ensures v in reallyPresent <==> InSomeComponent(varConnected[..i + 1], v)
        {
          SomeComponentNext(varConnected, i, v);
        }
      }
      assert varConnected[..|varConnected|] == varConnected;
    }

    method ProjectVars(vars: seq<Var>) returns (projected: seq<Var>)
      ensures forall v: Var :: v in projected <==> v in vars && v in q.selected
    {
      projected := [];
      for i := 0 to |vars|
        invariant forall v: Var :: v in projected <==> v in vars[..i] && v in q.selected
      {
        assert forall v: Var :: v in vars[..i + 1] <==> v in vars[..i] || v == vars[i];
        if vars[i] in q.selected {
          projected := projected + [vars[i]];
        }
      }
      assert vars[..|vars|] == vars;
    }

    /** A single component: the projected assignments that satisfy every chosen part, then the others by the first part they falsify. */
    method CountSingle(vars: seq<Var>, m: Asg) returns (ret: real, ghost selector: seq<Lit>)
      requires Inv() && ComponentReady(q, solver.assumption, specs.value, vars) && Covered(solver.assumption, specs.value)
      requires ModelOf(q, Elements(vars), {}, specs.value, m)
      modifies Footprint()
      ensures Inv() && solver.assumption == old(solver.assumption) && specs.value == old(specs.value)
      ensures ret == CountOf(q, vars, [], specs.value)
      ensures Choice(split, vars, selector)
      ensures if refinement then Minimal(q, Elements(vars), specs.value, selector) else Extracted(split, m, selector)
      ensures forall l :: l in selector && l.sign ==> !RestOk(split, l.v, m)
      decreases |vars|, 3
    {
      hide *;
      ComponentParts(q, solver.assumption, specs.value, vars);
      var chosen := ExtractSelectorFalsifiedNProj(vars, m);
      ExtractedChoice(q, split, vars, specs.value, m, chosen);
      FalseOnesLack(split, m, chosen);
      if refinement {
        chosen := Refine(vars, chosen);
        assert forall l :: l in chosen && l.sign ==> Falsifiable(split, specs.value, l);
      }
      selector := chosen;
      ComponentCacheable(q, solver.assumption, specs.value, vars);
      BucketHere(specs.value, vars);
      var formulaBucket := oracles.bucket(specs.value, vars);
      ret := Cached(vars, chosen, formulaBucket);
    }

    method Cached(vars: seq<Var>, selector: seq<Lit>, formulaBucket: CachedBucket<real>) returns (ret: real)
      requires Inv() && ComponentReady(q, solver.assumption, specs.value, vars) && Covered(solver.assumption, specs.value)
      requires formulaBucket == oracles.bucket(specs.value, vars) && formulaBucket.Sized() && formulaBucket.Live() && Asked(q, q.nbVar, specs.value, vars)
      requires Choice(split, vars, selector) && (forall l :: l in selector && l.sign ==> Falsifiable(split, specs.value, l))
      requires Satisfiable(q.clauses, Elements(vars), TrueOnes(Lits(selector)), specs.value)
      modifies Footprint()
      ensures Inv() && solver.assumption == old(solver.assumption) && specs.value == old(specs.value)
      ensures ret == CountOf(q, vars, [], specs.value)
      ensures cache.Holds(formulaBucket, ret)
      ensures old(cache.Hits(formulaBucket, solver.clock)) ==> solver.clock == old(solver.clock)
      decreases |vars|, 2, 1
    {
      hide CountOf, Problem.M, Residual.Open, Ready, Satisfiable, Structured, Choice, ModelsOk, Falsifiable, ComponentReady, Covered, Inner, Footprint, BucketOk, OraclesOk, CacheManager.Candidate, CacheManager.Holds, CacheManager.Hits, CacheManager.SameSlot, CnfManager.Clean, Problem.Consistent;
      var cb := cache.SearchInCache(formulaBucket, solver.clock);
      if cb.defined {
        ret := cb.e.fc;
      } else {
        ret := CountCover(vars, selector);
        FreshEntrySound(q, oracles, q.nbVar, specs.value, vars, cb.e, ret);
        cache.AddInCache(cb, ret);
      }
    }

    lemma BucketHere(trail: Asg, vars: seq<Var>)
      requires Inv() && Asked(q, q.nbVar, trail, vars)
      ensures oracles.bucket(trail, vars).Sized() && oracles.bucket(trail, vars).Live()
    {
    }

    /** The inner count, then one call per false selector. */
    method CountCover(vars: seq<Var>, selector: seq<Lit>) returns (ret: real)
      requires Inv() && ComponentReady(q, solver.assumption, specs.value, vars) && Covered(solver.assumption, specs.value)
      requires Choice(split, vars, selector) && (forall l :: l in selector && l.sign ==> Falsifiable(split, specs.value, l))
      requires Satisfiable(q.clauses, Elements(vars), TrueOnes(Lits(selector)), specs.value)
      modifies Footprint()
      ensures Inv() && solver.assumption == old(solver.assumption) && specs.value == old(specs.value)
      ensures ret == CountOf(q, vars, [], specs.value)
      decreases |vars|, 2, 0
    {
      hide *;
      ghost var base, trail := solver.assumption, specs.value;
      ComponentParts(q, base, trail, vars);
      ret := CountInner(vars, selector);
      var negs := KeepFalse(selector);
      NegsFacts(split, vars, selector, negs);
      InnerIsLast(q, split, base, trail, vars, selector, negs);
      assert base + negs[..0] == base;
      for i := 0 to |negs|
        invariant Inv() && specs.value == trail && solver.assumption == base + negs[..i]
        invariant ret + CountOf(q, vars, base + negs[..i], trail) == CountOf(q, vars, base + negs, trail) + CountOf(q, vars, base, trail)
      {
        var s := negs[i];
        assert s in negs;
        CoverAt(q, split, base, trail, vars, negs, i);
        var c := CountFalsified(vars, s, base, negs, i);
        StackNext(split, base, vars, negs, i);
        assert s.Neg() !in solver.assumption && s !in solver.assumption;
        ret := ret + c;
        solver.PushAssumption(s);
      }
      assert negs[..|negs|] == negs;
      solver.PopAssumption(|negs|);
      AssumptionsElsewhere(q, base, [], trail, vars);
    }

    /** The projected assignments that satisfy the earlier parts and falsify the one of selector `s`. */
    method CountFalsified(vars: seq<Var>, s: Lit, ghost base: seq<Lit>, ghost negs: seq<Lit>, ghost i: nat) returns (c: real)
      requires Inv() && ComponentReady(q, base, specs.value, vars) && Covered(base, specs.value)
      requires Negatives(split, vars, negs) && i < |negs| && negs[i] == s && solver.assumption == base + negs[..i]
      requires s.v in split.part && s.v in vars && Falsifiable(split, specs.value, s)
      modifies Footprint()
      ensures Inv() && solver.assumption == old(solver.assumption) && specs.value == old(specs.value)
      ensures c == Counting.Count(q.M(), Elements(vars), Deciding(q, Elements(vars), Lits(solver.assumption), split.part[s.v], false), specs.value)
      decreases |vars|, 1
    {
      hide *;
      ghost var stack, trail := solver.assumption, specs.value;
      StackDistinct(q, split, base, trail, vars, negs, i);
      var isUnsat, count := PushFalsified(split.part[s.v]);
      PushedFacts(q, split, base, trail, vars, negs, i, solver.assumption, isUnsat);
      c := 0.0;
      if !isUnsat {
        c := Compute_(vars);
      }
      solver.PopAssumption(count);
    }

    /** Assumes the negations of the literals of a projected part, unless one of them is assumed true. */
    method PushFalsified(cl: Clause) returns (isUnsat: bool, count: nat)
      requires DistinctVars(solver.assumption)
      modifies solver`assumption
      ensures count <= |solver.assumption| && solver.assumption[..|solver.assumption| - count] == old(solver.assumption)
      ensures Falsifying(old(solver.assumption), cl, solver.assumption, isUnsat)
    {
      ghost var stack := solver.assumption;
      isUnsat, count := false, 0;
      for k := 0 to |cl|
        invariant !isUnsat && count <= |solver.assumption| && solver.assumption[..|solver.assumption| - count] == stack
        invariant Falsifying(stack, cl[..k], solver.assumption, false)
      {
        var l := cl[k];
        assert forall x :: x in cl[..k + 1] <==> x in cl[..k] || x == l;
        assert forall x :: x in solver.assumption ==> x.v == l.v ==> x == l || x == l.Neg();
        FalsifyingNext(stack, cl, k, solver.assumption);
        if l in solver.assumption {
          isUnsat := true;
          break;
        }
        if l.Neg() !in solver.assumption {
          solver.PushAssumption(l.Neg());
          count := count + 1;
        }
      }
      assert cl[..|cl|] == cl;
    }

    method KeepFalse(selector: seq<Lit>) returns (negs: seq<Lit>)
      ensures negs == Filter(selector, IsFalseOne)
    {
      negs := selector;
      var j := 0;
      for i := 0 to |selector|
        invariant 0 <= j <= i <= |selector| == |negs|
        invariant negs[..j] == Filter(selector[..i], IsFalseOne)
        invariant forall t :: i <= t < |negs| ==> negs[t] == selector[t]
      {
        assert selector[..i + 1][..i] == selector[..i];
        if negs[i].sign {
          negs := negs[j := negs[i]];
          j := j + 1;
        }
      }
      assert selector[..|selector|] == selector;
      negs := negs[..j];
    }

    /** The counter on the projected clauses, under the assumptions and the chosen selectors. */
    method CountInner(vars: seq<Var>, selector: seq<Lit>) returns (r: real)
      requires Inv() && ComponentReady(q, solver.assumption, specs.value, vars) && Covered(solver.assumption, specs.value)
      requires Choice(split, vars, selector)
      modifies Footprint()
      ensures Inv() && solver.assumption == old(solver.assumption) && specs.value == old(specs.value)
      ensures r == ResCount(q.M(), split.proj, Elements(vars), Lits(selector), specs.value)
    {
      hide *;
      SeparateFacts();
      var nextAssums := solver.assumption + selector;
      InnerCountable(q, split, solver.assumption, specs.value, vars, selector);
      ghost var trail := specs.value;
      r := counter.Count(vars, nextAssums);
      CounterKeeps();
      InnerSum(q, split, solver.assumption, trail, vars, selector);
    }

    lemma SeparateFacts()
      requires Inv()
      ensures solver != counter.solver && specs != counter.specs && cache != counter.cache
      ensures specs.parent != counter.specs.parent && specs.parent != counter.specs.size
      ensures specs.size != counter.specs.parent && specs.size != counter.specs.size
      ensures specs.pos != counter.specs.pos && specs.markView != counter.specs.markView
    {
    }

    /** The whole run returns the weighted projected model count of the split formula. */
    method Run() returns (r: real)
      requires Inv() && solver.assumption == [] && specs.value == map[]
      modifies Footprint()
      ensures Inv() && solver.assumption == [] && specs.value == map[]
      ensures r == WeightedModelCount(q)
    {
      hide *;
      var setOfVar := ListVars(q);
      WholeCount(q, setOfVar);
      assert Covered([], map[]) by { NothingCovered(); }
      r := Compute_(setOfVar);
    }

    twostate lemma KeepsInv()
      requires old(Inv()) && specs.Clean() && unchanged(cache) && unchanged(counter.cache)
      requires counter.Inv() && counter.specs.value == map[]
      ensures Inv()
    {
    }

    twostate lemma CounterKeeps()
      requires old(Inv()) && counter.Inv() && counter.specs.value == map[] && unchanged(specs) && unchanged(specs.pos) && unchanged(specs.markView) && unchanged(cache)
      ensures Inv()
    {
    }
  }

  lemma RestIndices(q: Problem, s: Split, v: Var)
    requires Structured(q, s) && v in s.part
    ensures v in s.rest && forall k :: k in s.rest[v] ==> k < |s.notProj|
  {
    forall k | k in s.rest[v]
      ensures k < |s.notProj|
    {
      assert LowerOk(q, s, v, k);
    }
  }

  /** Every assigned variable is assumed with its value. */
  ghost predicate Covered(assumption: seq<Lit>, trail: Asg) {
    forall x: Var :: x in trail ==> Lit(x, !trail[x]) in assumption
  }

  predicate IsTrueOne(l: Lit) { !l.sign }

  predicate IsFalseOne(l: Lit) { l.sign }

  function Inner(q: Problem, s: Split): Problem {
    q.(clauses := s.proj, isUnsat := false)
  }

  lemma ChoiceNext(s: Split, vars: seq<Var>, i: nat, lits: seq<Lit>, l: Lit)
    requires i < |vars| && NoDup(vars) && Choice(s, vars[..i], lits) && l.v == vars[i]
    ensures l.v !in s.part ==> Choice(s, vars[..i + 1], lits)
    ensures l.v in s.part ==> Choice(s, vars[..i + 1], lits + [l])
  {
    assert vars[..i + 1] == vars[..i] + [vars[i]];
    assert l.v !in vars[..i];
    forall v | v in LitVars(lits) || v == l.v
      ensures v in LitVars(lits + [l])
    {
      if v == l.v {
        assert l in lits + [l];
      } else {
        var k :| k in lits && k.v == v;
        assert k in lits + [l];
      }
    }
  }

  lemma ComponentParts(q: Problem, base: seq<Lit>, trail: Asg, vars: seq<Var>)
    requires ComponentReady(q, base, trail, vars)
    ensures Ready(q, base, trail, vars) && Open(q.clauses, q.nbVar + 1, Elements(vars), trail) && NoDup(vars)
    ensures (forall l :: l in base ==> l.v !in vars) && Elements(vars) !! trail.Keys
    ensures forall l :: l in base ==> TrueIn(l, trail)
  {
    hide Satisfiable, Closed;
  }

  lemma SelectorNew(s: Split, vars: seq<Var>, lits: seq<Lit>, i: nat)
    requires Choice(s, vars, lits) && i < |lits|
    ensures lits[i].v in vars && forall k :: k in Filter(lits[..i], IsTrueOne) ==> k.v != lits[i].v
  {
    FilterHolds(lits[..i], IsTrueOne);
    assert lits[i] in lits;
  }

  lemma NothingFiltered(lits: seq<Lit>)
    ensures Filter(lits[..0], IsTrueOne) == [] && Filter(lits[..0], IsFalseOne) == []
  {
  }

  lemma FilteredNext(lits: seq<Lit>, i: nat)
    requires i < |lits|
    ensures Filter(lits[..i + 1], IsTrueOne) == Filter(lits[..i], IsTrueOne) + (if lits[i].sign then [] else [lits[i]])
    ensures Filter(lits[..i + 1], IsFalseOne) == Filter(lits[..i], IsFalseOne) + (if lits[i].sign then [lits[i]] else [])
  {
    assert lits[..i + 1][..i] == lits[..i];
  }

  lemma StartRefining(q: Problem, s: Split, base: seq<Lit>, trail: Asg, vars: seq<Var>, orig: seq<Lit>, chosen: seq<Lit>, open: seq<Lit>)
    requires Choice(s, vars, orig) && chosen == Filter(orig, IsTrueOne) && open == Filter(orig, IsFalseOne)
    requires forall l :: l in base ==> l.v !in vars
    requires Satisfiable(q.clauses, Elements(vars), TrueOnes(Lits(orig)), trail)
    ensures Refining(q, s, base, trail, vars, orig, chosen, open)
  {
    hide Satisfiable;
    FilterHolds(orig, IsTrueOne);
    FilterHolds(orig, IsFalseOne);
    FilterDistinct(orig, IsTrueOne);
    FilterDistinct(orig, IsFalseOne);
    forall v | v in LitVars(orig)
      ensures v in LitVars(chosen + open)
    {
      var l :| l in orig && l.v == v;
      assert l in chosen + open;
    }
    SignsApart(orig, chosen, open);
    FewerAssumptions(q, Elements(vars), Lits(base + chosen), TrueOnes(Lits(orig)), trail);
  }

  lemma {:induction false} FilterDistinct(s: seq<Lit>, p: Lit -> bool)
    requires DistinctVars(s)
    ensures DistinctVars(Filter(s, p))
  {
    if s != [] {
      var init, x := s[..|s| - 1], s[|s| - 1];
      FilterDistinct(init, p);
      FilterHolds(init, p);
      assert forall k :: k in init ==> k.v != x.v;
    }
  }

  lemma SignsApart(orig: seq<Lit>, chosen: seq<Lit>, open: seq<Lit>)
    requires DistinctVars(orig) && DistinctVars(chosen) && DistinctVars(open)
    requires forall l :: l in chosen ==> l in orig && !l.sign
    requires forall l :: l in open ==> l in orig && l.sign
    ensures DistinctVars(chosen + open)
  {
    forall i, j | 0 <= i < |chosen| && 0 <= j < |open|
      ensures chosen[i].v != open[j].v
    {
      assert chosen[i] in chosen && open[j] in open;
      var a :| 0 <= a < |orig| && orig[a] == chosen[i];
      var b :| 0 <= b < |orig| && orig[b] == open[j];
      assert a != b;
    }
  }

  /** Trying a selector later does not matter. */
  lemma Rotate(q: Problem, s: Split, base: seq<Lit>, trail: Asg, vars: seq<Var>, orig: seq<Lit>, chosen: seq<Lit>, open: seq<Lit>)
    requires Refining(q, s, base, trail, vars, orig, chosen, open) && open != []
    ensures Refining(q, s, base, trail, vars, orig, chosen, open[1..] + [open[0]])
  {
    hide Satisfiable, Minimal;
    var a, b := chosen + open, chosen + (open[1..] + [open[0]]);
    forall l
      ensures l in b <==> l in a
    {
      assert open == [open[0]] + open[1..];
    }
    forall i, j | 0 <= i < j < |b|
      ensures b[i].v != b[j].v
    {
      var i' := if i < |chosen| then i else if i == |b| - 1 then |chosen| else i + 1;
      var j' := if j < |chosen| then j else if j == |b| - 1 then |chosen| else j + 1;
      assert b[i] == a[i'] && b[j] == a[j'] && i' != j';
    }
  }

  lemma DoneRefining(q: Problem, s: Split, base: seq<Lit>, trail: Asg, vars: seq<Var>, orig: seq<Lit>, chosen: seq<Lit>)
    requires Refining(q, s, base, trail, vars, orig, chosen, [])
    ensures Choice(s, vars, chosen) && Minimal(q, Elements(vars), trail, chosen)
    ensures forall l :: l in orig && !l.sign ==> l in chosen
    ensures forall l :: l in chosen && l.sign ==> l in orig
    ensures Satisfiable(q.clauses, Elements(vars), TrueOnes(Lits(chosen)), trail)
  {
    hide Satisfiable, Minimal;
    assert chosen + [] == chosen;
    FewerAssumptions(q, Elements(vars), TrueOnes(Lits(chosen)), Lits(base + chosen), trail);
  }

  // ---------- Pushing the units ----------

  function Missing(units: seq<Lit>, base: seq<Lit>): seq<Lit> {
    if units == [] then []
    else Missing(units[..|units| - 1], base) + if units[|units| - 1] in base then [] else [units[|units| - 1]]
  }

  lemma {:induction false} MissingHolds(units: seq<Lit>, base: seq<Lit>)
    ensures forall l :: l in Missing(units, base) <==> l in units && l !in base
  {
    if units != [] {
      MissingHolds(units[..|units| - 1], base);
      assert units == units[..|units| - 1] + [units[|units| - 1]];
    }
  }

  lemma MissingNext(units: seq<Lit>, base: seq<Lit>, i: nat)
    requires i < |units| && DistinctVars(units) && units[i].Neg() !in base
    ensures Missing(units[..i + 1], base) == Missing(units[..i], base) + if units[i] in base then [] else [units[i]]
    ensures units[i] in base + Missing(units[..i], base) <==> units[i] in base
    ensures units[i] !in base ==> forall k :: k in base + Missing(units[..i], base) ==> k.v != units[i].v
  {
    assert units[..i + 1][..i] == units[..i];
    MissingHolds(units[..i], base);
    var l := units[i];
    forall k | k in base
      ensures k.v == l.v ==> k == l
    {
    }
  }

  lemma UnitsNotNegated(q: Problem, base: seq<Lit>, trail: Asg, vars: seq<Var>, units: seq<Lit>)
    requires Ready(q, base, trail, vars) && UnitsOf(q, base, trail, vars, units)
    ensures DistinctVars(units) && DistinctVars(base) && forall l :: l in units ==> l.Neg() !in base
  {
    hide Implied, Residual.Open;
    forall l | l in units
      ensures l.Neg() !in base
    {
      NegVar(l);
      assert l.Neg() in base ==> l.Neg() in units;
      OneSign(units, l);
    }
  }

  lemma UnitsPushed(q: Problem, base: seq<Lit>, trail: Asg, vars: seq<Var>, units: seq<Lit>, stack: seq<Lit>)
    requires Ready(q, base, trail, vars) && UnitsOf(q, base, trail, vars, units) && Covered(base, trail)
    requires stack == base + Missing(units, base)
    ensures base <= stack && Covered(stack, trail + AsgOf(units))
    ensures forall l :: l in stack ==> TrueIn(l, trail + AsgOf(units))
  {
    AssumptionsOnTrail(q, base, trail, vars, units);
    MissingHolds(units, base);
    hide Ready, Implied, Missing;
    forall x: Var | x in trail + AsgOf(units)
      ensures Lit(x, !(trail + AsgOf(units))[x]) in stack
    {
      if x in AsgOf(units) {
        var l :| l in units && l.v == x;
        assert TrueIn(l, AsgOf(units));
        assert l == Lit(x, !AsgOf(units)[x]);
      }
    }
  }

  lemma PartsPushed(q: Problem, base: seq<Lit>, stack: seq<Lit>, t: Asg, comps: seq<seq<Var>>)
    requires forall i :: 0 <= i < |comps| ==> ComponentReady(q, base, t, comps[i])
    requires DistinctVars(stack) && forall l :: l in stack ==> TrueIn(l, t)
    ensures forall i :: 0 <= i < |comps| ==> ComponentReady(q, stack, t, comps[i])
  {
    hide ComponentReady;
    forall i | 0 <= i < |comps|
      ensures ComponentReady(q, stack, t, comps[i])
    {
      PartPushed(q, base, stack, t, comps[i]);
    }
  }

  lemma PartPushed(q: Problem, base: seq<Lit>, stack: seq<Lit>, t: Asg, comp: seq<Var>)
    requires ComponentReady(q, base, t, comp) && DistinctVars(stack) && forall l :: l in stack ==> TrueIn(l, t)
    ensures ComponentReady(q, stack, t, comp)
  {
    hide Satisfiable, Closed;
    forall l | l in stack
      ensures l.v !in comp
    {
      assert l.v in comp ==> l.v in Elements(comp);
    }
  }

  lemma AllModels(q: Problem, base: seq<Lit>, trail: Asg, vars: seq<Var>, units: seq<Lit>, m: Asg, comps: seq<seq<Var>>, free: seq<Var>)
    requires Ready(q, base, trail, vars) && UnitsOf(q, base, trail, vars, units) && ModelOf(q, Elements(vars), Lits(base), trail, m)
    requires IsSplit(q.clauses, vars, trail + AsgOf(units), comps, free)
    ensures forall i :: 0 <= i < |comps| ==> ModelOf(q, Elements(comps[i]), {}, trail + AsgOf(units), m)
  {
    hide *;
    UnitsRange(q, base, trail, vars, units);
    SplitRange(q.clauses, vars, trail + AsgOf(units), comps, free);
    forall i | 0 <= i < |comps|
      ensures ModelOf(q, Elements(comps[i]), {}, trail + AsgOf(units), m)
    {
      ModelAfterUnits(q, base, trail, vars, units, m, comps[i]);
    }
  }

  /** Of several components, each is smaller than the bound. */
  lemma PartsSmaller(q: Problem, base: seq<Lit>, trail: Asg, vars: seq<Var>, units: seq<Lit>, comps: seq<seq<Var>>, free: seq<Var>)
    requires Ready(q, base, trail, vars) && UnitsOf(q, base, trail, vars, units)
    requires IsSplit(q.clauses, vars, trail + AsgOf(units), comps, free)
    ensures |comps| > 1 ==> forall i :: 0 <= i < |comps| ==> |comps[i]| < Bound(base, vars)
  {
    hide *;
    UnitsRange(q, base, trail, vars, units);
    ReadyRange(q, base, trail, vars);
    SplitRange(q.clauses, vars, trail + AsgOf(units), comps, free);
    if |comps| > 1 {
      forall i | 0 <= i < |comps|
        ensures |comps[i]| < Bound(base, vars)
      {
        var j := if i == 0 then 1 else 0;
        var x := comps[j][0];
        assert x in comps[j];
        ComponentsApart(q.clauses, vars, trail + AsgOf(units), comps, free, i, j, x);
        PartSmaller(base, trail, vars, units, comps[i] + [x]);
      }
    }
  }

  lemma ComponentsApart(f: Formula, vars: seq<Var>, t: Asg, comps: seq<seq<Var>>, free: seq<Var>, i: nat, j: nat, x: Var)
    requires IsSplit(f, vars, t, comps, free) && i < |comps| && j < |comps| && i != j && x in comps[j]
    ensures x !in comps[i] && NoDup(comps[i] + [x])
  {
    hide Separated, FreeIn;
    assert i < j ==> forall y: Var :: y in comps[i] ==> y !in comps[j];
    assert x !in comps[i];
  }

  // ---------- Components ----------

  lemma {:induction false} NothingProjected(q: Problem, stack: seq<Lit>, t: Asg, comps: seq<seq<Var>>, i: nat)
    requires i <= |comps| && q.projected && forall v: Var :: InSomeComponent(comps, v) ==> v !in q.selected
    requires forall j :: 0 <= j < |comps| ==> ComponentReady(q, stack, t, comps[j])
    ensures CompsCount(q.M(), q.clauses, t, comps, i) == 1.0
    decreases |comps| - i
  {
    if i < |comps| {
      NothingProjected(q, stack, t, comps, i + 1);
      HiddenComponent(q, stack, t, comps, i);
    }
  }

  lemma HiddenComponent(q: Problem, stack: seq<Lit>, t: Asg, comps: seq<seq<Var>>, i: nat)
    requires i < |comps| && q.projected && forall v: Var :: InSomeComponent(comps, v) ==> v !in q.selected
    requires ComponentReady(q, stack, t, comps[i])
    ensures ResCount(q.M(), q.clauses, Elements(comps[i]), {}, t) == 1.0
  {
    assert forall v: Var :: v in comps[i] ==> InSomeComponent(comps, v);
    assert Elements(comps[i]) !! q.M().proj;
    hide Ready, Satisfiable, Problem.M;
    HiddenLaw(q.M(), q.clauses, Elements(comps[i]), {}, t);
  }

  lemma SingleProduct(r: real)
    ensures Operation.Product([r]) == r
  {
    assert [r][..0] == [];
  }

  lemma ComponentCall(q: Problem, stack: seq<Lit>, t: Asg, comp: seq<Var>)
    requires ComponentReady(q, stack, t, comp)
    ensures Ready(q, stack, t, comp) && Bound(stack, comp) == |comp|
    ensures CountOf(q, comp, stack, t) == CountOf(q, comp, [], t)
  {
    hide Ready, Satisfiable, CountOf;
    AssumptionsElsewhere(q, stack, [], t, comp);
  }

  lemma SomeComponentNext(comps: seq<seq<Var>>, i: nat, v: Var)
    requires i < |comps|
    ensures InSomeComponent(comps[..i + 1], v) <==> InSomeComponent(comps[..i], v) || v in comps[i]
  {
    if v in comps[i] {
      assert comps[..i + 1][i] == comps[i];
    }
    if InSomeComponent(comps[..i], v) {
      var j :| 0 <= j < i && v in comps[..i][j];
      assert comps[..i + 1][j] == comps[..i][j];
    }
    if InSomeComponent(comps[..i + 1], v) {
      var j :| 0 <= j < i + 1 && v in comps[..i + 1][j];
      assert j < i ==> comps[..i][j] == comps[..i + 1][j];
    }
  }

  // ---------- The cover on the assumption stack ----------

  ghost predicate Negatives(s: Split, vars: seq<Var>, negs: seq<Lit>) {
    && DistinctVars(negs)
    && (forall l :: l in negs ==> l.sign && l.v in s.part && l.v in vars)
  }

  lemma NegsFacts(s: Split, vars: seq<Var>, selector: seq<Lit>, negs: seq<Lit>)
    requires Choice(s, vars, selector) && negs == Filter(selector, IsFalseOne)
    ensures Negatives(s, vars, negs) && (forall l :: l in negs ==> l in selector) && Lits(negs) == FalseOnes(Lits(selector))
  {
    FilterHolds(selector, IsFalseOne);
    FilterDistinct(selector, IsFalseOne);
  }

  lemma ChoiceDecides(s: Split, vars: seq<Var>, selector: seq<Lit>)
    requires Choice(s, vars, selector)
    ensures Decides(s, Elements(vars), Lits(selector))
  {
    forall v | v in s.part && v in Elements(vars)
      ensures Lit(v, true) in Lits(selector) <==> Lit(v, false) !in Lits(selector)
    {
      assert v in LitVars(selector);
      var l :| l in selector && l.v == v;
      OneSign(selector, l);
      assert l == Lit(v, true) || l == Lit(v, false);
    }
  }

  /** The inner count is the last set of the cover. */
  lemma InnerIsLast(q: Problem, s: Split, base: seq<Lit>, trail: Asg, vars: seq<Var>, selector: seq<Lit>, negs: seq<Lit>)
    requires Structured(q, s) && ComponentReady(q, base, trail, vars) && Choice(s, vars, selector)
    requires Satisfiable(q.clauses, Elements(vars), TrueOnes(Lits(selector)), trail)
    requires Lits(negs) == FalseOnes(Lits(selector))
    ensures ResCount(q.M(), s.proj, Elements(vars), Lits(selector), trail) == CountOf(q, vars, base + negs, trail)
  {
    ComponentParts(q, base, trail, vars);
    hide *;
    ChoiceDecides(s, vars, selector);
    ProjectedClausesDecide(q, s, Elements(vars), trail, Lits(selector));
    AssumptionsElsewhere(q, base + negs, negs, trail, vars);
    CountOfIs(q, vars, negs, trail);
    ResCountIs(q.M(), s.proj, Elements(vars), Lits(selector), trail);
  }

  lemma ResCountIs(m: Measure, f: Formula, vs: set<Var>, assumed: set<Lit>, trail: Asg)
    ensures ResCount(m, f, vs, assumed, trail) == Counting.Count(m, vs, Res(f, vs, assumed), trail)
  {
    hide Counting.Count, Res;
  }

  lemma StackNext(s: Split, base: seq<Lit>, vars: seq<Var>, negs: seq<Lit>, i: nat)
    requires Negatives(s, vars, negs) && i < |negs| && forall l :: l in base ==> l.v !in vars
    ensures base + negs[..i] + [negs[i]] == base + negs[..i + 1]
    ensures forall k :: k in base + negs[..i] ==> k.v != negs[i].v
    ensures negs[i] !in base + negs[..i] && negs[i].Neg() !in base + negs[..i]
    ensures Lits(base + negs[..i + 1]) == Lits(base + negs[..i]) + {Lit(negs[i].v, true)}
    ensures negs[i].v in s.part && negs[i].v in Elements(vars)
  {
    assert negs[i] in negs && negs[..i + 1] == negs[..i] + [negs[i]];
    assert negs[i] == Lit(negs[i].v, true);
    NegVar(negs[i]);
  }

  lemma CoverAt(q: Problem, s: Split, base: seq<Lit>, trail: Asg, vars: seq<Var>, negs: seq<Lit>, i: nat)
    requires q.Consistent() && Structured(q, s) && ComponentReady(q, base, trail, vars) && Negatives(s, vars, negs) && i < |negs|
    ensures negs[i].v in s.part
    ensures CountOf(q, vars, base + negs[..i], trail)
         == CountOf(q, vars, base + negs[..i + 1], trail)
          + Counting.Count(q.M(), Elements(vars), Deciding(q, Elements(vars), Lits(base + negs[..i]), s.part[negs[i].v], false), trail)
  {
    ComponentParts(q, base, trail, vars);
    hide *;
    StackNext(s, base, vars, negs, i);
    assert forall l :: l in Lits(base + negs[..i]) ==> l.v != negs[i].v by { LitsIn(base + negs[..i]); }
    CoverStep(q, s, Elements(vars), Lits(base + negs[..i]), trail, negs[i].v);
    CountOfIs(q, vars, base + negs[..i], trail);
    CountOfIs(q, vars, base + negs[..i + 1], trail);
  }

  lemma LitsIn(a: seq<Lit>)
    ensures forall l :: l in Lits(a) <==> l in a
  {
  }

  lemma StackDistinct(q: Problem, s: Split, base: seq<Lit>, trail: Asg, vars: seq<Var>, negs: seq<Lit>, i: nat)
    requires ComponentReady(q, base, trail, vars) && Negatives(s, vars, negs) && i <= |negs|
    ensures DistinctVars(base + negs[..i])
  {
    ComponentParts(q, base, trail, vars);
    assert DistinctVars(base) by { ReadyRange(q, base, trail, vars); }
    hide ComponentReady;
    forall a, b | 0 <= a < |base| && 0 <= b < i
      ensures base[a].v != negs[b].v
    {
      assert base[a] in base && negs[b] in negs;
    }
  }

  // ---------- Falsifying a projected part ----------

  /** `now` is `stack` with negated literals of `cl` on top. */
  ghost predicate Falsifying(stack: seq<Lit>, cl: Clause, now: seq<Lit>, isUnsat: bool) {
    && stack <= now && DistinctVars(now)
    && (forall x :: x in now ==> x in stack || x.Neg() in cl)
    && (if isUnsat then exists l :: l in cl && l in now else forall l :: l in cl ==> l.Neg() in now)
  }

  lemma FalsifyingNext(stack: seq<Lit>, cl: Clause, k: nat, now: seq<Lit>)
    requires k < |cl| && Falsifying(stack, cl[..k], now, false)
    ensures cl[k] in now ==> Falsifying(stack, cl, now, true)
    ensures cl[k] !in now && cl[k].Neg() in now ==> Falsifying(stack, cl[..k + 1], now, false)
    ensures cl[k] !in now && cl[k].Neg() !in now ==>
      (forall x :: x in now ==> x.v != cl[k].Neg().v) && Falsifying(stack, cl[..k + 1], now + [cl[k].Neg()], false)
  {
    var l := cl[k];
    assert cl[..k + 1] == cl[..k] + [l] && forall x :: x in cl[..k + 1] ==> x in cl;
    assert l.Neg().Neg() == l && l.Neg().v == l.v;
    forall x | x in now && x.v == l.v
      ensures x == l || x == l.Neg()
    {
    }
  }

  /** The clause of an open selector: its literals are known to the trail or open. */
  lemma PartOpen(q: Problem, s: Split, vs: set<Var>, trail: Asg, v: Var)
    requires Structured(q, s) && v in s.part && v in vs && Open(q.clauses, q.nbVar + 1, vs, trail)
    ensures SatClause(s.part[v], trail) || forall l :: l in s.part[v] ==> l.v in vs || l.v in trail
  {
    assert UpperOk(q, s, v);
    UpperTouches(s.part[v], v, vs);
    SnocSatisfies(s.part[v], SelectorLit(v), trail);
    hide SatClause;
    assert forall l :: l in s.part[v] ==> l in Upper(s.part[v], v);
  }

  /** An assumed literal, or two opposite ones, satisfy the part in every model. */
  lemma PartSatisfied(q: Problem, s: Split, vs: set<Var>, stack: seq<Lit>, now: seq<Lit>, trail: Asg, v: Var, e: Asg)
    requires Structured(q, s) && v in s.part && v in vs && Open(q.clauses, q.nbVar + 1, vs, trail) && e.Keys == vs
    requires Falsifying(stack, s.part[v], now, true) && Holds(q.clauses, vs, Lits(stack), trail + e)
    requires forall l :: l in stack && l.v !in vs ==> TrueIn(l, trail)
    ensures SatClause(s.part[v], trail + e)
  {
    var cl, b := s.part[v], trail + e;
    PartOpen(q, s, vs, trail, v);
    if SatClause(cl, trail) {
      SatClauseGrows(cl, trail, e);
    } else {
      var l :| l in cl && l in now;
      SatIn(cl, b);
      if l in stack {
        assert l in Lits(stack);
        assert TrueIn(l, b);
      } else {
        assert l.Neg() in cl && (l.v in vs || l.v in trail);
        assert TrueIn(l, b) || TrueIn(l.Neg(), b);
      }
    }
  }

  lemma NoFalsifier(q: Problem, s: Split, vs: set<Var>, stack: seq<Lit>, now: seq<Lit>, trail: Asg, v: Var)
    requires Structured(q, s) && v in s.part && v in vs && Open(q.clauses, q.nbVar + 1, vs, trail)
    requires Falsifying(stack, s.part[v], now, true)
    requires forall l :: l in stack && l.v !in vs ==> TrueIn(l, trail)
    ensures Counting.Count(q.M(), vs, Deciding(q, vs, Lits(stack), s.part[v], false), trail) == 0.0
  {
    hide Structured, Falsifying, Residual.Open, Holds, SatClause, Counting.Count;
    var phi := Deciding(q, vs, Lits(stack), s.part[v], false);
    forall e: Asg | e.Keys == vs
      ensures !phi(trail + e)
    {
      if Holds(q.clauses, vs, Lits(stack), trail + e) {
        PartSatisfied(q, s, vs, stack, now, trail, v, e);
      }
    }
    assert !Extends(vs, phi, trail);
    CountZero(q.M(), vs, phi, trail);
  }

  /** What was pushed on top of the stack lies in the open variables. */
  lemma PushedOpen(q: Problem, s: Split, vs: set<Var>, stack: seq<Lit>, now: seq<Lit>, trail: Asg, v: Var)
    requires Structured(q, s) && v in s.part && v in vs && Open(q.clauses, q.nbVar + 1, vs, trail)
    requires Falsifying(stack, s.part[v], now, false) && Covered(stack, trail)
    ensures forall l :: l in s.part[v] ==> l.v in vs || TrueIn(l.Neg(), trail)
    ensures forall l :: l in now && l !in stack ==> l.v in vs
  {
    var cl := s.part[v];
    PartOpen(q, s, vs, trail, v);
    forall l | l in cl && l.v in trail
      ensures TrueIn(l.Neg(), trail) && l.Neg() in stack
    {
      var k := Lit(l.v, !trail[l.v]);
      assert k in stack && k in now && l.Neg() in now;
      assert k == l || k == l.Neg();
      OneSign(now, l.Neg());
    }
    SatIn(cl, trail);
    forall l | l in now && l !in stack
      ensures l.v in vs
    {
      assert l.Neg() in cl && l.Neg().v == l.v && l.Neg().Neg() == l;
    }
  }

  lemma FalsifyingCount(q: Problem, s: Split, vs: set<Var>, stack: seq<Lit>, now: seq<Lit>, trail: Asg, v: Var)
    requires Structured(q, s) && v in s.part && v in vs && Open(q.clauses, q.nbVar + 1, vs, trail)
    requires Falsifying(stack, s.part[v], now, false) && Covered(stack, trail)
    ensures Counting.Count(q.M(), vs, Deciding(q, vs, Lits(stack), s.part[v], false), trail)
         == Counting.Count(q.M(), vs, Res(q.clauses, vs, Lits(now)), trail)
  {
    PushedOpen(q, s, vs, stack, now, trail, v);
    hide Structured, Residual.Open, Covered, Counting.Count;
    var phi, psi := Deciding(q, vs, Lits(stack), s.part[v], false), Res(q.clauses, vs, Lits(now));
    forall e: Asg | e.Keys == vs
      ensures phi(trail + e) == psi(trail + e)
    {
      FalsifyingAgrees(q, vs, stack, s.part[v], now, trail, e);
    }
    Congruence(q.M(), vs, phi, trail, psi, trail);
  }

  lemma FalsifyingAgrees(q: Problem, vs: set<Var>, stack: seq<Lit>, cl: Clause, now: seq<Lit>, trail: Asg, e: Asg)
    requires Falsifying(stack, cl, now, false) && e.Keys == vs && vs !! trail.Keys
    requires forall l :: l in cl ==> l.v in vs || TrueIn(l.Neg(), trail)
    ensures Deciding(q, vs, Lits(stack), cl, false)(trail + e) == Res(q.clauses, vs, Lits(now))(trail + e)
  {
    var b := trail + e;
    hide Touches;
    SatIn(cl, b);
    hide SatClause;
    forall l | l in cl
      ensures TrueIn(l, b) <==> !TrueIn(l.Neg(), b)
    {
    }
    if Holds(q.clauses, vs, Lits(stack), b) && !SatClause(cl, b) {
      forall x | x in now && x.v in vs
        ensures TrueIn(x, b)
      {
        if x !in stack {
          assert x.Neg() in cl && x.Neg().Neg() == x;
        } else {
          assert x in Lits(stack);
        }
      }
    }
    if Holds(q.clauses, vs, Lits(now), b) {
      assert forall x :: x in stack ==> x in now;
      forall l | l in cl
        ensures TrueIn(l.Neg(), b)
      {
        assert l.Neg() in now && l.Neg() in Lits(now) && l.Neg().v == l.v;
      }
    }
  }

  lemma PushedFacts(q: Problem, s: Split, base: seq<Lit>, trail: Asg, vars: seq<Var>, negs: seq<Lit>, i: nat, now: seq<Lit>, isUnsat: bool)
    requires Structured(q, s) && ComponentReady(q, base, trail, vars) && Covered(base, trail)
    requires Negatives(s, vars, negs) && i < |negs| && negs[i].v in s.part && Falsifiable(s, trail, negs[i])
    requires Falsifying(base + negs[..i], s.part[negs[i].v], now, isUnsat)
    ensures isUnsat ==>
      Counting.Count(q.M(), Elements(vars), Deciding(q, Elements(vars), Lits(base + negs[..i]), s.part[negs[i].v], false), trail) == 0.0
    ensures !isUnsat ==> Ready(q, now, trail, vars) && Covered(now, trail) && Bound(now, vars) < |vars|
    ensures !isUnsat ==>
      CountOf(q, vars, now, trail)
      == Counting.Count(q.M(), Elements(vars), Deciding(q, Elements(vars), Lits(base + negs[..i]), s.part[negs[i].v], false), trail)
  {
    hide *;
    var stack, v, vs := base + negs[..i], negs[i].v, Elements(vars);
    ComponentParts(q, base, trail, vars);
    StackFacts(s, base, trail, vars, negs, i);
    if isUnsat {
      NoFalsifier(q, s, vs, stack, now, trail, v);
    } else {
      PushedOpen(q, s, vs, stack, now, trail, v);
      FalsifyingCount(q, s, vs, stack, now, trail, v);
      CountOfIs(q, vars, now, trail);
      PushedReady(q, s, base, trail, vars, negs, i, now);
      PushedPending(s, trail, vars, stack, now, negs[i]);
    }
  }

  lemma StackFacts(s: Split, base: seq<Lit>, trail: Asg, vars: seq<Var>, negs: seq<Lit>, i: nat)
    requires Negatives(s, vars, negs) && i < |negs| && Covered(base, trail)
    requires forall l :: l in base ==> TrueIn(l, trail)
    ensures negs[i].v in Elements(vars) && Covered(base + negs[..i], trail)
    ensures forall l :: l in base + negs[..i] && l.v !in Elements(vars) ==> TrueIn(l, trail)
    ensures forall l :: l in base + negs[..i] ==> l in base || l.v in vars
  {
    assert negs[i] in negs;
    assert forall l :: l in negs[..i] ==> l in negs;
  }

  lemma PushedReady(q: Problem, s: Split, base: seq<Lit>, trail: Asg, vars: seq<Var>, negs: seq<Lit>, i: nat, now: seq<Lit>)
    requires Ready(q, base, trail, vars) && i < |negs| && negs[i].v in s.part && Covered(base + negs[..i], trail)
    requires Falsifying(base + negs[..i], s.part[negs[i].v], now, false)
    requires forall l :: l in base + negs[..i] && l.v !in Elements(vars) ==> TrueIn(l, trail)
    requires forall l :: l in now && l !in base + negs[..i] ==> l.v in Elements(vars)
    ensures Ready(q, now, trail, vars) && Covered(now, trail)
  {
    hide Residual.Open;
    assert forall l :: l in base + negs[..i] ==> l in now;
  }

  lemma PushedPending(s: Split, trail: Asg, vars: seq<Var>, stack: seq<Lit>, now: seq<Lit>, l: Lit)
    requires l.v in s.part && Falsifiable(s, trail, l) && Falsifying(stack, s.part[l.v], now, false) && l.v in Elements(vars)
    requires forall k :: k in s.part[l.v] ==> k.v in Elements(vars) || TrueIn(k.Neg(), trail)
    ensures Bound(now, vars) < |vars|
  {
    var k :| k in s.part[l.v] && !TrueIn(k.Neg(), trail);
    assert k.Neg() in now && k.Neg().v == k.v && k.v in vars;
    assert Pending(now, vars);
    assert l.v in vars;
  }

  // ---------- The inner counter ----------

  lemma {:induction false} ShadowAppend(a: seq<Lit>, b: seq<Lit>, vars: seq<Var>)
    ensures Shadow(a + b, vars) == Shadow(a, vars) + Shadow(b, vars)
  {
    if a == [] {
      assert a + b == b;
    } else {
      assert (a + b)[1..] == a[1..] + b;
      ShadowAppend(a[1..], b, vars);
    }
  }

  lemma {:induction false} ShadowAll(a: seq<Lit>, vars: seq<Var>)
    ensures (forall l :: l in a ==> l.v !in vars) ==> Shadow(a, vars) == a
    ensures (forall l :: l in a ==> l.v in vars) ==> Shadow(a, vars) == []
  {
    if a != [] {
      ShadowAll(a[1..], vars);
      assert a == [a[0]] + a[1..];
    }
  }

  lemma AsgIsTrail(base: seq<Lit>, trail: Asg)
    requires DistinctVars(base) && Covered(base, trail) && forall l :: l in base ==> TrueIn(l, trail)
    ensures AsgOf(base) == trail
  {
    var a := AsgOf(base);
    forall x: Var | x in trail
      ensures x in a && a[x] == trail[x]
    {
      var l := Lit(x, !trail[x]);
      assert l in base && TrueIn(l, a);
    }
    forall x: Var | x in a
      ensures x in trail
    {
      var l :| l in base && l.v == x;
    }
  }

  lemma ShadowIsTrail(q: Problem, s: Split, base: seq<Lit>, trail: Asg, vars: seq<Var>, selector: seq<Lit>)
    requires ComponentReady(q, base, trail, vars) && Covered(base, trail) && Choice(s, vars, selector)
    ensures Shadow(base + selector, vars) == base && DistinctVars(base) && AsgOf(base) == trail
    ensures DistinctVars(base + selector)
  {
    ComponentParts(q, base, trail, vars);
    ReadyRange(q, base, trail, vars);
    hide ComponentReady, Ready;
    ShadowAppend(base, selector, vars);
    ShadowAll(base, vars);
    ShadowAll(selector, vars);
    AsgIsTrail(base, trail);
    forall a, b | 0 <= a < |base| && 0 <= b < |selector|
      ensures base[a].v != selector[b].v
    {
      assert base[a] in base && selector[b] in selector;
    }
  }

  lemma InnerCountable(q: Problem, s: Split, base: seq<Lit>, trail: Asg, vars: seq<Var>, selector: seq<Lit>)
    requires Structured(q, s) && ComponentReady(q, base, trail, vars) && Covered(base, trail) && Choice(s, vars, selector)
    ensures Countable(Inner(q, s), base + selector, vars) && !Inner(q, s).isUnsat
  {
    ShadowIsTrail(q, s, base, trail, vars, selector);
    ComponentParts(q, base, trail, vars);
    ReadyRange(q, base, trail, vars);
    assert forall c :: c in s.proj ==> c in q.clauses;
    InnerOpen(q, s, Elements(vars), trail);
    assert 0 !in vars;
    hide Residual.Open, ComponentReady, Ready, Structured, Choice, Covered;
  }

  lemma InnerOpen(q: Problem, s: Split, vs: set<Var>, trail: Asg)
    requires Structured(q, s) && Open(q.clauses, q.nbVar + 1, vs, trail)
    ensures Open(s.proj, q.nbVar + 1, vs, trail)
  {
    assert forall c :: c in s.proj ==> c in q.clauses;
    hide Structured, SatClause, Touches;
  }

  lemma InnerIs(q: Problem, s: Split)
    ensures Inner(q, s).M() == q.M() && Inner(q, s).clauses == s.proj && Inner(q, s).nbVar == q.nbVar
  {
  }

  lemma InnerSum(q: Problem, s: Split, base: seq<Lit>, trail: Asg, vars: seq<Var>, selector: seq<Lit>)
    requires Structured(q, s) && ComponentReady(q, base, trail, vars) && Covered(base, trail) && Choice(s, vars, selector)
    ensures DistinctVars(Shadow(base + selector, vars))
    ensures SetSum(Weigh(Inner(q, s).nbVar + 1, Inner(q, s).M()),
                   ProjectedModels(Inner(q, s).M(), Elements(vars), Res(Inner(q, s).clauses, Elements(vars), Lits(base + selector)),
                                   AsgOf(Shadow(base + selector, vars))))
         == ResCount(q.M(), s.proj, Elements(vars), Lits(selector), trail)
  {
    hide *;
    var i := Inner(q, s);
    InnerIs(q, s);
    ShadowIsTrail(q, s, base, trail, vars, selector);
    ComponentParts(q, base, trail, vars);
    InnerOpen(q, s, Elements(vars), trail);
    CountSum(i, vars, base + selector, trail);
    AssumptionsElsewhere(i, base + selector, selector, trail, vars);
    CountOfIs(i, vars, selector, trail);
    ResCountIs(q.M(), s.proj, Elements(vars), Lits(selector), trail);
  }

  // ---------- A component without selectors ----------

  /** Where no selector is among the variables nothing is chosen, so the cover is the one inner count. */
  lemma NothingToChoose(s: Split, vars: seq<Var>, selector: seq<Lit>)
    requires Choice(s, vars, selector) && forall v: Var :: v in vars ==> v !in s.part
    ensures selector == []
  {
    hide DistinctVars, LitVars;
    SomeLit(selector);
  }

  lemma SomeLit(lits: seq<Lit>)
    ensures lits == [] || exists l :: l in lits
  {
    if lits != [] {
      assert lits[0] in lits;
    }
  }

  lemma NothingCovered()
    ensures Covered([], map[])
  {
  }
}
