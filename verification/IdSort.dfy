/** Stable counting sort by small identifiers. */
module IdSort {
  /** The items with identifier `k`, in order. */
  function Bucket<T>(s: seq<T>, id: T -> nat, k: nat): seq<T> {
    if s == [] then [] else Bucket(s[..|s| - 1], id, k) + (if id(s[|s| - 1]) == k then [s[|s| - 1]] else [])
  }

  /** The buckets below `k`, one after the other. */
  function Buckets<T>(s: seq<T>, id: T -> nat, k: nat): seq<T> {
    if k == 0 then [] else Buckets(s, id, k - 1) + Bucket(s, id, k - 1)
  }

  predicate InRange<T(!new)>(s: seq<T>, id: T -> nat, n: nat) { forall i: nat :: i < |s| ==> id(s[i]) < n }

  predicate Ascending<T(!new)>(s: seq<T>, id: T -> nat) { forall i: nat, j: nat :: i < j < |s| ==> id(s[i]) <= id(s[j]) }

  lemma {:induction false} BucketIds<T(!new)>(s: seq<T>, id: T -> nat, k: nat)
    ensures forall x: T :: x in Bucket(s, id, k) <==> x in s && id(x) == k
  {
    if s != [] {
      BucketIds(s[..|s| - 1], id, k);
      assert s == s[..|s| - 1] + [s[|s| - 1]];
    }
  }

  lemma {:induction false} BucketAppend<T>(a: seq<T>, b: seq<T>, id: T -> nat, k: nat)
    ensures Bucket(a + b, id, k) == Bucket(a, id, k) + Bucket(b, id, k)
  {
    if b == [] {
      assert a + b == a;
    } else {
      var m := |b| - 1;
      assert (a + b)[..|a + b| - 1] == a + b[..m];
      BucketAppend(a, b[..m], id, k);
    }
  }

  lemma BucketNone<T>(id: T -> nat, k: nat)
    ensures Bucket<T>([], id, k) == []
  {
  }

  lemma BucketNext<T>(s: seq<T>, i: nat, id: T -> nat, k: nat)
    requires i < |s|
    ensures Bucket(s[..i + 1], id, k) == Bucket(s[..i], id, k) + (if id(s[i]) == k then [s[i]] else [])
    ensures |Bucket(s[..i + 1], id, k)| <= |Bucket(s, id, k)|
  {
    assert s[..i + 1][..i] == s[..i];
    assert s == s[..i + 1] + s[i + 1..];
    BucketAppend(s[..i + 1], s[i + 1..], id, k);
  }

  lemma {:induction false} BucketOfBucket<T(!new)>(s: seq<T>, id: T -> nat, k: nat, m: nat)
    ensures Bucket(Bucket(s, id, k), id, m) == if k == m then Bucket(s, id, k) else []
  {
    if s != [] {
      var front, last := s[..|s| - 1], s[|s| - 1];
      BucketOfBucket(front, id, k, m);
      BucketAppend(Bucket(front, id, k), if id(last) == k then [last] else [], id, m);
      assert Bucket([last], id, m) == (if id(last) == m then [last] else []) by { assert [last][..0] == []; }
    }
  }

  lemma {:induction false} BucketOfBuckets<T(!new)>(s: seq<T>, id: T -> nat, n: nat, m: nat)
    ensures Bucket(Buckets(s, id, n), id, m) == if m < n then Bucket(s, id, m) else []
  {
    hide Bucket;
    if n == 0 {
      assert Bucket([], id, m) == [] by { BucketNone(id, m); }
    } else {
      BucketOfBuckets(s, id, n - 1, m);
      BucketOfBucket(s, id, n - 1, m);
      BucketAppend(Buckets(s, id, n - 1), Bucket(s, id, n - 1), id, m);
    }
  }

  /** Sorting by counting keeps each bucket in its original order: the sort is stable. */
  lemma SortStable<T(!new)>(s: seq<T>, id: T -> nat, n: nat, k: nat)
    requires InRange(s, id, n)
    ensures Bucket(Buckets(s, id, n), id, k) == Bucket(s, id, k)
  {
    BucketOfBuckets(s, id, n, k);
    if k >= n {
      BucketEmpty(s, id, n, k);
    }
  }

  lemma {:induction false} BucketEmpty<T(!new)>(s: seq<T>, id: T -> nat, n: nat, k: nat)
    requires InRange(s, id, n) && n <= k
    ensures Bucket(s, id, k) == []
  {
    if s != [] {
      assert InRange(s[..|s| - 1], id, n);
      BucketEmpty(s[..|s| - 1], id, n, k);
    }
  }

  lemma {:induction false} BucketsIds<T(!new)>(s: seq<T>, id: T -> nat, n: nat)
    ensures forall x: T :: x in Buckets(s, id, n) <==> x in s && id(x) < n
  {
    hide Bucket;
    if n > 0 {
      BucketsIds(s, id, n - 1);
      BucketIds(s, id, n - 1);
      var a, b := Buckets(s, id, n - 1), Bucket(s, id, n - 1);
      forall x: T ensures x in Buckets(s, id, n) <==> x in s && id(x) < n {
        assert x in a + b <==> x in a || x in b;
      }
    }
  }

  lemma {:induction false} SortAscending<T(!new)>(s: seq<T>, id: T -> nat, n: nat)
    ensures Ascending(Buckets(s, id, n), id)
  {
    if n > 0 {
      SortAscending(s, id, n - 1);
      BucketsIds(s, id, n - 1);
      BucketIds(s, id, n - 1);
      var a, b := Buckets(s, id, n - 1), Bucket(s, id, n - 1);
      forall i: nat, j: nat | i < j < |a + b| ensures id((a + b)[i]) <= id((a + b)[j]) {
        assert i < |a| ==> (a + b)[i] in a;
        assert i >= |a| ==> (a + b)[i] in b;
        assert j >= |a| ==> (a + b)[j] in b;
      }
    }
  }

  lemma {:induction false} BucketsShorter<T>(s: seq<T>, id: T -> nat, k: nat, n: nat)
    requires k <= n
    ensures |Buckets(s, id, k)| <= |Buckets(s, id, n)|
  {
    if k < n {
      BucketsShorter(s, id, k, n - 1);
    }
  }

  /** All buckets together have as many items as the list. */
  lemma {:induction false} BucketsLength<T>(s: seq<T>, id: T -> nat, n: nat)
    ensures s == [] ==> Buckets(s, id, n) == []
    ensures s != [] ==> |Buckets(s, id, n)| == |Buckets(s[..|s| - 1], id, n)| + (if id(s[|s| - 1]) < n then 1 else 0)
  {
    if n > 0 {
      BucketsLength(s, id, n - 1);
    }
  }

  lemma {:induction false} SortLength<T(!new)>(s: seq<T>, id: T -> nat, n: nat)
    requires InRange(s, id, n)
    ensures |Buckets(s, id, n)| == |s|
  {
    BucketsLength(s, id, n);
    if s != [] {
      assert InRange(s[..|s| - 1], id, n);
      SortLength(s[..|s| - 1], id, n);
    }
  }

  /** What bucket `k` of the output holds once the first `i` items are placed. */
  ghost predicate Filled<T(!new)>(out: seq<T>, s: seq<T>, id: T -> nat, i: nat, k: nat)
    requires i <= |s|
  {
    var from := |Buckets(s, id, k)|;
    var done := Bucket(s[..i], id, k);
    from + |done| <= |Buckets(s, id, k + 1)| <= |out| && out[from..from + |done|] == done
  }

  /** The position the next item goes to. */
  function Target<T>(s: seq<T>, id: T -> nat, i: nat): nat
    requires i < |s|
  {
    |Buckets(s, id, id(s[i]))| + |Bucket(s[..i], id, id(s[i]))|
  }

  lemma TargetFits<T(!new)>(s: seq<T>, id: T -> nat, n: nat, i: nat)
    requires i < |s| && InRange(s, id, n)
    ensures Target(s, id, i) < |Buckets(s, id, id(s[i]) + 1)| <= |s|
  {
    hide Bucket, Buckets, InRange;
    IdFits(s, id, n, i);
    BucketsStep(s, id, id(s[i]));
    BucketNext(s, i, id, id(s[i]));
    SortLength(s, id, n);
    BucketsShorter(s, id, id(s[i]) + 1, n);
  }

  lemma TargetElsewhere<T(!new)>(s: seq<T>, id: T -> nat, n: nat, i: nat, k: nat)
    requires i < |s| && InRange(s, id, n) && k != id(s[i])
    ensures Target(s, id, i) < |Buckets(s, id, k)| || |Buckets(s, id, k + 1)| <= Target(s, id, i)
  {
    hide Bucket, Buckets;
    TargetFits(s, id, n, i);
    var p := id(s[i]);
    if k < p {
      BucketsShorter(s, id, k + 1, p);
    } else {
      BucketsShorter(s, id, p + 1, k);
    }
  }

  lemma FilledStep<T(!new)>(before: seq<T>, s: seq<T>, id: T -> nat, n: nat, i: nat, k: nat)
    requires i < |s| && InRange(s, id, n) && k < n && |before| == |s|
    requires Filled(before, s, id, i, k)
    ensures Target(s, id, i) < |before|
    ensures Filled(before[Target(s, id, i) := s[i]], s, id, i + 1, k)
  {
    hide Bucket, Buckets, InRange;
    TargetFits(s, id, n, i);
    BucketNext(s, i, id, k);
    var at := Target(s, id, i);
    var low, done := |Buckets(s, id, k)|, Bucket(s[..i], id, k);
    if k == id(s[i]) {
    } else {
      TargetElsewhere(s, id, n, i, k);
    }
  }

  lemma {:induction false} FilledAll<T(!new)>(out: seq<T>, s: seq<T>, id: T -> nat, n: nat)
    requires forall k: nat :: k < n ==> Filled(out, s, id, |s|, k)
    requires |Buckets(s, id, n)| <= |out|
    ensures out[..|Buckets(s, id, n)|] == Buckets(s, id, n)
  {
    if n > 0 {
      BucketsShorter(s, id, n - 1, n);
      FilledAll(out, s, id, n - 1);
      assert Filled(out, s, id, |s|, n - 1);
      assert s[..|s|] == s;
      var a, b := |Buckets(s, id, n - 1)|, |Buckets(s, id, n)|;
      assert out[..b] == out[..a] + out[a..b];
    }
  }

  /** Counts, turns the counts into starting positions, and copies every item to the next position of its bucket. */
  method StableSortCopyById<T(!new)>(input: seq<T>, out: array<T>, idCount: nat, id: T -> nat)
    requires out.Length == |input| && InRange(input, id, idCount)
    modifies out
    ensures out[..] == Buckets(input, id, idCount)
  {
    hide Bucket, Buckets, Filled, InRange;
    var pos := CountIds(input, idCount, id);
    var sum := 0;
    BucketsStart(input, id);
    for i := 0 to idCount
      invariant sum == |Buckets(input, id, i)|
      invariant forall k: nat :: k < i ==> pos[k] == |Buckets(input, id, k)|
      invariant forall k: nat :: i <= k < idCount ==> pos[k] == |Bucket(input, id, k)|
    {
      BucketsStep(input, id, i);
      var tmp := pos[i];
      pos[i] := sum;
      sum := sum + tmp;
    }
    forall k: nat | k < idCount ensures Filled(out[..], input, id, 0, k) && Bucket(input[..0], id, k) == [] {
      FilledStart(out[..], input, id, idCount, k);
    }
    for i := 0 to |input|
      invariant forall k: nat :: k < idCount ==> pos[k] == |Buckets(input, id, k)| + |Bucket(input[..i], id, k)|
      invariant forall k: nat :: k < idCount ==> Filled(out[..], input, id, i, k)
    {
      var p := id(input[i]);
      var before := out[..];
      TargetFits(input, id, idCount, i);
      IdFits(input, id, idCount, i);
      ghost var after := before[Target(input, id, i) := input[i]];
      ghost var next, placed := i + 1, input[..i + 1];
      forall k: nat | k < idCount
        ensures |Bucket(placed, id, k)| == |Bucket(input[..i], id, k)| + (if p == k then 1 else 0)
      {
        BucketNext(input, i, id, k);
      }
      forall k: nat | k < idCount ensures Filled(after, input, id, next, k) {
        FilledStep(before, input, id, idCount, i, k);
      }
      out[pos[p]] := input[i];
      pos[p] := pos[p] + 1;
      assert out[..] == after;
    }
    SortLength(input, id, idCount);
    FilledAll(out[..], input, id, idCount);
    assert out[..|Buckets(input, id, idCount)|] == out[..];
  }

  method CountIds<T(!new)>(input: seq<T>, idCount: nat, id: T -> nat) returns (pos: array<nat>)
    requires InRange(input, id, idCount)
    ensures fresh(pos) && pos.Length == idCount
    ensures forall k: nat :: k < idCount ==> pos[k] == |Bucket(input, id, k)|
  {
    pos := new nat[idCount](_ => 0);
    for i := 0 to |input|
      invariant forall k: nat :: k < idCount ==> pos[k] == |Bucket(input[..i], id, k)|
    {
      hide Bucket;
      forall k: nat ensures Bucket(input[..i + 1], id, k) == Bucket(input[..i], id, k) + (if id(input[i]) == k then [input[i]] else []) {
        BucketNext(input, i, id, k);
      }
      pos[id(input[i])] := pos[id(input[i])] + 1;
    }
    assert input[..|input|] == input;
  }

  lemma IdFits<T(!new)>(s: seq<T>, id: T -> nat, n: nat, i: nat)
    requires InRange(s, id, n) && i < |s|
    ensures id(s[i]) < n
  {
  }

  lemma BucketsStart<T>(s: seq<T>, id: T -> nat)
    ensures Buckets(s, id, 0) == []
  {
  }

  lemma BucketsStep<T>(s: seq<T>, id: T -> nat, k: nat)
    ensures Buckets(s, id, k + 1) == Buckets(s, id, k) + Bucket(s, id, k)
  {
  }

  lemma FilledStart<T(!new)>(out: seq<T>, s: seq<T>, id: T -> nat, n: nat, k: nat)
    requires InRange(s, id, n) && |out| == |s| && k < n
    ensures Filled(out, s, id, 0, k) && Bucket(s[..0], id, k) == []
  {
    SortLength(s, id, n);
    BucketsShorter(s, id, k + 1, n);
  }
}
