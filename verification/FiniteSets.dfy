/** Lists without duplicates, and sizes of finite sets. */
module FiniteSets {
  predicate NoDup<T(==)>(s: seq<T>) {
    forall i, j :: 0 <= i < j < |s| ==> s[i] != s[j]
  }

  function Elements<T>(s: seq<T>): set<T> {
    set x | x in s
  }

  lemma {:induction false} ElementsSize<T>(s: seq<T>)
    requires NoDup(s)
    ensures |Elements(s)| == |s|
  {
    if s == [] {
      assert Elements(s) == {};
    } else {
      var init, x := s[..|s| - 1], s[|s| - 1];
      ElementsSize(init);
      assert s == init + [x];
      assert Elements(s) == Elements(init) + {x};
    }
  }

  lemma {:induction false} SubsetSize<T>(s: set<T>, t: set<T>)
    requires s <= t
    ensures |s| <= |t|
    ensures s != t ==> |s| < |t|
  {
    if s == {} {
      assert s != t ==> t != {};
    } else {
      var x :| x in s;
      SubsetSize(s - {x}, t - {x});
      assert s != t ==> s - {x} != t - {x};
    }
  }

  /** The numbers below `n`. */
  ghost function Range(n: nat): (r: set<nat>)
    ensures forall x: nat :: x in r <==> x < n
    ensures |r| == n
  {
    if n == 0 then {} else Range(n - 1) + {n - 1}
  }

  /** Distinct numbers below `n` are at most `n`. */
  lemma NoDupFits(s: seq<nat>, n: nat)
    requires NoDup(s) && forall i :: 0 <= i < |s| ==> s[i] < n
    ensures |s| <= n
  {
    ElementsSize(s);
    SubsetSize(Elements(s), Range(n));
  }

  lemma PositiveFits(s: seq<nat>, n: nat)
    requires NoDup(s) && forall x: nat :: x in s ==> 1 <= x <= n
    ensures |s| <= n
  {
    ElementsSize(s);
    assert Elements(s) <= Range(n + 1) - {0};
    SubsetSize(Elements(s), Range(n + 1) - {0});
  }

  ghost predicate OneToOne<A(!new), B(!new)>(s: set<A>, t: set<B>, f: A -> B) {
    (forall x: A :: x in s ==> f(x) in t) &&
    (forall x: A, y: A :: x in s && y in s && f(x) == f(y) ==> x == y) &&
    (forall z: B :: z in t ==> Reaches(s, f, z))
  }

  ghost predicate Reaches<A(!new), B(!new)>(s: set<A>, f: A -> B, z: B) { exists x: A :: x in s && f(x) == z }

  lemma NoneHit<A(!new), B(!new)>(s: set<A>, t: set<B>, f: A -> B)
    requires OneToOne(s, t, f)
    ensures t != {} ==> s != {}
  {
    if t != {} {
      var z: B :| z in t;
      assert Reaches(s, f, z);
    }
  }

  lemma {:induction false} SameSize<A(!new), B(!new)>(s: set<A>, t: set<B>, f: A -> B)
    requires OneToOne(s, t, f)
    ensures |s| == |t|
  {
    NoneHit(s, t, f);
    if s != {} {
      var x: A :| x in s;
      var s', t' := s - {x}, t - {f(x)};
      forall z: B | z in t' ensures Reaches(s', f, z) {
        assert Reaches(s, f, z);
        var y: A :| y in s && f(y) == z;
        assert y in s';
      }
      SameSize(s', t', f);
    }
  }
}
