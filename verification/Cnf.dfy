/** Literals, clauses and assignments, the vocabulary every other module speaks. */
module Cnf {

  type Var = nat

  /** A literal; `sign` is true for a negated variable. */
  datatype Lit = Lit(v: Var, sign: bool) {
    function Neg(): Lit { Lit(v, !sign) }
  }

  type Clause = seq<Lit>

  type Formula = seq<Clause>

  /** A partial assignment: variables outside the map are undefined. */
  type Asg = map<Var, bool>

  predicate TrueIn(l: Lit, a: Asg) {
    l.v in a && a[l.v] == !l.sign
  }

  predicate SatClause(c: Clause, a: Asg) {
    exists i :: 0 <= i < |c| && TrueIn(c[i], a)
  }

  predicate Sat(f: Formula, a: Asg) {
    forall c :: c in f ==> SatClause(c, a)
  }

  function LitVars(s: seq<Lit>): set<Var> {
    set l | l in s :: l.v
  }

  predicate DistinctVars(s: seq<Lit>) {
    forall i, j :: 0 <= i < j < |s| ==> s[i].v != s[j].v
  }

  /** The assignment that makes exactly the given literals true. */
  function AsgOf(s: seq<Lit>): (a: Asg)
    requires DistinctVars(s)
    ensures a.Keys == LitVars(s)
    ensures forall l :: l in s ==> TrueIn(l, a)
  {
    if s == [] then map[]
    else
      var rest := AsgOf(s[1..]);
      assert s == [s[0]] + s[1..];
      rest[s[0].v := !s[0].sign]
  }

  lemma OneSign(units: seq<Lit>, l: Lit)
    requires DistinctVars(units) && l in units
    ensures l.Neg() !in units
  {
    var i :| 0 <= i < |units| && units[i] == l;
    forall j | 0 <= j < |units|
      ensures units[j] != l.Neg()
    {
      assert j != i ==> units[j].v != units[i].v;
    }
  }
}
