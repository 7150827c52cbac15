/** The packed header of a cached formula. */
module DataInfos {

  const FIELD: bv64 := 0x1F_FFFF

  /** From the low end: 21 bits for the number of variables, 21 for the data size, 5 each for the widths of a variable and of the formula. */
  datatype DataInfo = DataInfo(info1: bv64) {
    function SzData(): bv64 { (info1 >> 21) & FIELD }
    function NbVar(): bv64 { info1 & FIELD }
  }

  predicate InRange(szData: bv64, nbVar: bv64, nbBitVar: bv64, nbBitFormula: bv64) {
    nbBitFormula < 32 && nbBitVar < 32 && nbVar < 0x20_0000 && szData < 0x20_0000
  }

  function Pack(szData: bv64, nbVar: bv64, nbBitVar: bv64, nbBitFormula: bv64): (d: DataInfo)
    requires InRange(szData, nbVar, nbBitVar, nbBitFormula)
    ensures d.SzData() == szData && d.NbVar() == nbVar
  {
    DataInfo(nbVar | (szData << 21) | (nbBitVar << 42) | (nbBitFormula << 47))
  }

  /** Equal headers were packed from equal fields. */
  lemma PackInjective(s1: bv64, v1: bv64, b1: bv64, f1: bv64, s2: bv64, v2: bv64, b2: bv64, f2: bv64)
    requires InRange(s1, v1, b1, f1) && InRange(s2, v2, b2, f2)
    ensures Pack(s1, v1, b1, f1) == Pack(s2, v2, b2, f2) <==> s1 == s2 && v1 == v2 && b1 == b2 && f1 == f2
  {
    Unpack(s1, v1, b1, f1);
    Unpack(s2, v2, b2, f2);
  }

  lemma Unpack(s: bv64, v: bv64, b: bv64, f: bv64)
    requires InRange(s, v, b, f)
    ensures (Pack(s, v, b, f).info1 >> 42) & 31 == b
    ensures (Pack(s, v, b, f).info1 >> 47) & 31 == f
  {
  }
}

/**
  The component cache: a hash table of packed formulas with the result computed for them.
  Entries may collide, be overwritten or be evicted at any time.
*/
module Caching {
  import opened DataInfos

  type Bytes = seq<bv8>

  datatype CachedBucket<T(!new)> = CachedBucket(data: Bytes, header: DataInfo, fc: T) {
    predicate SameHeader(o: CachedBucket<T>) { header == o.header }
    function LockedBucket(v: T): CachedBucket<T> { this.(fc := v) }
    function Reset(): CachedBucket<T> { this.(header := DataInfo(0)) }

    /** The size recorded in the header is the size of the data. */
    predicate Sized() { |data| == header.SzData() as nat }

    /** An occupied slot: a reset header has no variables. */
    predicate Live() { header.NbVar() != 0 }
  }

  datatype TmpEntry<T(!new)> = TmpEntry(e: CachedBucket<T>, hashValue: nat, defined: bool)

  datatype CachingMethod = CACHE_LIST | CACHE_NO_COL

  const SIZE_HASH_LIST: nat := 999331
  const SIZE_HASH_NO_COL: nat := 22041997

  /** The first `n` bytes of the two blocks are equal. */
  predicate SameBytes(a: Bytes, b: Bytes, n: nat)
    requires n <= |a| && n <= |b|
  {
    a[..n] == b[..n]
  }

  /** Same header and same data: the two buckets encode the same formula. */
  predicate SameKey<T(!new)>(a: CachedBucket<T>, b: CachedBucket<T>) {
    a.header == b.header && a.data == b.data
  }

  /** The cleaning strategy, seen from the cache: when it runs, what it evicts, the new size limit. */
  datatype Cleaning<!T(!new)> = Cleaning(due: nat -> bool, evict: (nat, CachedBucket<T>) -> bool, limit: nat -> nat)

  class CacheManager<T(!new)> {
    const cachingMethod: CachingMethod
    const hash: (Bytes, DataInfo) -> nat
    const cleaning: Cleaning<T>
    const nbInitVar: nat

    var lists: seq<seq<CachedBucket<T>>>
    var slots: seq<CachedBucket<T>>
    var limitVarCached: nat
    var nbEntry: nat
    var nbPositiveHit: nat
    var nbNegativeHit: nat

    /** Every bucket ever locked with a value. */
    ghost var inserted: set<CachedBucket<T>>

    ghost predicate Valid()
      reads this`lists, this`slots, this`inserted
    {
      && |lists| == SIZE_HASH_LIST
      && |slots| == SIZE_HASH_NO_COL
      && (forall i, b :: 0 <= i < |lists| && b in lists[i] ==> b.Sized() && b in inserted)
      && (forall i :: 0 <= i < |slots| && slots[i].Live() ==> slots[i].Sized() && slots[i] in inserted)
    }

    /** The entries the table would compare a bucket of this hash value with. */
    ghost predicate Candidate(hashValue: nat, b: CachedBucket<T>)
      requires Valid()
      reads this`lists, this`slots, this`inserted
    {
      match cachingMethod
      case CACHE_LIST => b in lists[hashValue % SIZE_HASH_LIST]
      case CACHE_NO_COL => b == slots[hashValue % SIZE_HASH_NO_COL] && b.Live()
    }

    /** An entry for this key is in its place, with this value. */
    ghost predicate Holds(bucket: CachedBucket<T>, val: T)
      requires Valid()
      reads this`lists, this`slots, this`inserted
    {
      exists b :: Candidate(hash(bucket.data, bucket.header), b) && SameKey(b, bucket) && b.fc == val
    }

    /** An entry for this key is in its place and outlives the cleaning, if one is due. */
    ghost predicate Hits(bucket: CachedBucket<T>, tick: nat)
      requires Valid()
      reads this`lists, this`slots, this`inserted
    {
      exists b :: Candidate(hash(bucket.data, bucket.header), b) && SameKey(b, bucket) && !(cleaning.due(tick) && cleaning.evict(tick, b))
    }

    /** Hash values that share a place in the table. */
    predicate SameSlot(h: nat, k: nat) {
      match cachingMethod
      case CACHE_LIST => h % SIZE_HASH_LIST == k % SIZE_HASH_LIST
      case CACHE_NO_COL => h % SIZE_HASH_NO_COL == k % SIZE_HASH_NO_COL
    }

    constructor (cachingMethod: CachingMethod, hash: (Bytes, DataInfo) -> nat, cleaning: Cleaning<T>, nbVar: nat, blank: T)
      ensures Valid() && inserted == {}
      ensures this.cachingMethod == cachingMethod && this.hash == hash && this.cleaning == cleaning
      ensures |lists| == 999331 && |slots| == 22041997
      ensures Within(nbVar) && nbInitVar == nbVar && limitVarCached == if nbVar < 100000 then nbVar else 100000
      ensures forall h: nat, b :: !Candidate(h, b)
    {
      this.cachingMethod := cachingMethod;
      this.hash := hash;
      this.cleaning := cleaning;
      nbInitVar := nbVar;
      limitVarCached := if nbVar < 100000 then nbVar else 100000;
      lists := seq(SIZE_HASH_LIST, _ => []);
      slots := seq(SIZE_HASH_NO_COL, _ => CachedBucket([], DataInfo(0), blank));
      nbEntry, nbPositiveHit, nbNegativeHit := 0, 0, 0;
      inserted := {};
    }

    predicate IsActivated(nbVar: nat)
      reads this
    {
      nbVar <= limitVarCached
    }

    /** Components of more than `limit` variables are never looked up. */
    ghost predicate Within(limit: nat)
      reads this`limitVarCached
    {
      limitVarCached <= limit && (nbInitVar <= limit || forall tick: nat :: cleaning.limit(tick) <= limit)
    }

    /** A list keeps every entry of its slot; a no-collision slot keeps the latest only. */
    method PushInHashTable(cb: CachedBucket<T>, hashValue: nat, val: T)
      requires Valid() && cb.Sized()
      modifies this
      ensures Valid() && inserted == old(inserted) + {cb.LockedBucket(val)}
      ensures forall h: nat, b :: !SameSlot(h, hashValue) ==> (Candidate(h, b) <==> old(Candidate(h, b)))
      ensures cachingMethod.CACHE_LIST? ==>
        forall h: nat, b :: SameSlot(h, hashValue) ==> (Candidate(h, b) <==> old(Candidate(h, b)) || b == cb.LockedBucket(val))
      ensures cachingMethod.CACHE_NO_COL? && cb.Live() ==>
        forall h: nat, b :: SameSlot(h, hashValue) ==> (Candidate(h, b) <==> b == cb.LockedBucket(val))
      ensures nbEntry == old(nbEntry) + 1
      ensures limitVarCached == old(limitVarCached)
    {
      var cbIn := cb.LockedBucket(val);
      match cachingMethod {
        case CACHE_LIST =>
          var i := hashValue % SIZE_HASH_LIST;
          lists := lists[i := lists[i] + [cbIn]];
        case CACHE_NO_COL =>
          slots := slots[hashValue % SIZE_HASH_NO_COL := cbIn];
      }
      nbEntry := nbEntry + 1;
      inserted := inserted + {cbIn};
    }

    /** Finds an entry with the header and the data of `cb` exactly when the table holds one. */
    method BucketAlreadyExist(cb: CachedBucket<T>, hashValue: nat) returns (found: bool, cbi: CachedBucket<T>)
      requires Valid() && cb.Sized()
      modifies this`nbPositiveHit, this`nbNegativeHit
      ensures Valid()
      ensures found ==> SameKey(cb, cbi) && Candidate(hashValue, cbi)
      ensures !found ==> forall b :: Candidate(hashValue, b) ==> !SameKey(cb, b)
      ensures nbPositiveHit == old(nbPositiveHit) + (if found then 1 else 0)
      ensures nbNegativeHit == old(nbNegativeHit) + (if found then 0 else 1)
    {
      match cachingMethod {
        case CACHE_LIST => found, cbi := FindInList(cb, lists[hashValue % SIZE_HASH_LIST]);
        case CACHE_NO_COL => found, cbi := FindInSlot(cb, slots[hashValue % SIZE_HASH_NO_COL]);
      }
      if found {
        nbPositiveHit := nbPositiveHit + 1;
      } else {
        nbNegativeHit := nbNegativeHit + 1;
      }
    }

    static method FindInList(cb: CachedBucket<T>, listCollision: seq<CachedBucket<T>>) returns (found: bool, cbi: CachedBucket<T>)
      requires cb.Sized() && forall b :: b in listCollision ==> b.Sized()
      ensures found ==> cbi in listCollision && SameKey(cb, cbi)
      ensures !found ==> forall b :: b in listCollision ==> !SameKey(cb, b)
    {
      for i := 0 to |listCollision|
        invariant forall j :: 0 <= j < i ==> !SameKey(cb, listCollision[j])
      {
        cbi := listCollision[i];
        assert cbi in listCollision;
        if !cb.SameHeader(cbi) { continue; }
        if SameBytes(cb.data, cbi.data, cbi.header.SzData() as nat) {
          assert cb.data == cb.data[..|cb.data|] && cbi.data == cbi.data[..|cbi.data|];
          return true, cbi;
        }
      }
      return false, cb;
    }

    static method FindInSlot(cb: CachedBucket<T>, cbi: CachedBucket<T>) returns (found: bool, r: CachedBucket<T>)
      requires cb.Sized() && (cbi.Live() ==> cbi.Sized())
      ensures found <==> cbi.Live() && SameKey(cb, cbi)
      ensures found ==> r == cbi
    {
      if cbi.Live() && cb.SameHeader(cbi) && SameBytes(cb.data, cbi.data, cbi.header.SzData() as nat) {
        assert cb.data == cb.data[..|cb.data|] && cbi.data == cbi.data[..|cbi.data|];
        return true, cbi;
      }
      return false, cb;
    }

    /** Drops the entries `test` selects, and no others. */
    method RemoveEntry(test: CachedBucket<T> -> bool)
      requires Valid()
      modifies this`lists, this`slots
      ensures Valid()
      ensures forall h: nat, b :: Candidate(h, b) <==> old(Candidate(h, b)) && !test(b)
    {
      match cachingMethod {
        case CACHE_LIST =>
          RemoveFromLists(test);
          forall h: nat, b
            ensures Candidate(h, b) <==> old(Candidate(h, b)) && !test(b)
          {
            var k := h % SIZE_HASH_LIST;
            KeepHolds(old(lists)[k], test, b);
            assert lists[k] == Keep(old(lists)[k], test);
          }
        case CACHE_NO_COL =>
          RemoveFromSlots(test);
      }
    }

    method RemoveFromLists(test: CachedBucket<T> -> bool)
      requires Valid()
      modifies this`lists
      ensures Valid()
      ensures |lists| == |old(lists)| && forall h :: 0 <= h < |lists| ==> lists[h] == Keep(old(lists)[h], test)
    {
      for k := 0 to |lists|
        invariant |lists| == SIZE_HASH_LIST
        invariant forall h :: 0 <= h < k ==> lists[h] == Keep(old(lists)[h], test)
        invariant forall h :: k <= h < |lists| ==> lists[h] == old(lists)[h]
      {
        var kept := Compact(lists[k], test);
        lists := lists[k := kept];
      }
      forall h, b | 0 <= h < |lists| && b in lists[h]
        ensures b.Sized() && b in inserted
      {
        KeepHolds(old(lists)[h], test, b);
      }
    }

    method RemoveFromSlots(test: CachedBucket<T> -> bool)
      requires Valid()
      modifies this`slots
      ensures Valid()
      ensures forall h :: 0 <= h < |slots| ==> slots[h] == if test(old(slots)[h]) then old(slots)[h].Reset() else old(slots)[h]
    {
      for k := 0 to |slots|
        invariant |slots| == SIZE_HASH_NO_COL
        invariant forall h :: 0 <= h < k ==>
          slots[h] == if test(old(slots)[h]) then old(slots)[h].Reset() else old(slots)[h]
        invariant forall h :: k <= h < |slots| ==> slots[h] == old(slots)[h]
      {
        if test(slots[k]) {
          slots := slots[k := slots[k].Reset()];
        }
      }
    }

    /** Shifts the kept elements to the front and cuts the rest off. */
    static method Compact(orig: seq<CachedBucket<T>>, test: CachedBucket<T> -> bool) returns (list: seq<CachedBucket<T>>)
      ensures list == Keep(orig, test)
    {
      list := orig;
      var j := 0;
      for i := 0 to |list|
        invariant 0 <= j <= i <= |list| == |orig|
        invariant list[..j] == Keep(orig[..i], test)
        invariant forall t :: i <= t < |list| ==> list[t] == orig[t]
      {
        KeepStep(orig, i, test);
        if !test(list[i]) {
          list := list[j := list[i]];
          j := j + 1;
        }
      }
      assert orig[..|list|] == orig;
      list := list[..j];
    }

    method AddInCache(cb: TmpEntry<T>, val: T)
      requires Valid() && cb.e.Sized() && cb.e.Live() && cb.hashValue == hash(cb.e.data, cb.e.header)
      modifies this
      ensures Valid() && inserted == old(inserted) + {cb.e.LockedBucket(val)}
      ensures forall h: nat, b :: Candidate(h, b) <==>
        if !SameSlot(h, cb.hashValue) then old(Candidate(h, b))
        else b == cb.e.LockedBucket(val) || (cachingMethod.CACHE_LIST? && old(Candidate(h, b)))
      ensures forall bucket :: SameKey(cb.e, bucket) ==> Holds(bucket, val)
      ensures limitVarCached == old(limitVarCached)
    {
      PushInHashTable(cb.e, cb.hashValue, val);
      assert Candidate(cb.hashValue, cb.e.LockedBucket(val));
    }

    /**
      When a cleaning is due the entries it selects are evicted first, and no others. Then a hit is a candidate with the
      same header and data, and there is one exactly when such a candidate is left; a miss leaves the key ready for insertion.
    */
    method SearchInCache(formulaBucket: CachedBucket<T>, tick: nat) returns (r: TmpEntry<T>)
      requires Valid() && formulaBucket.Sized()
      modifies this
      ensures Valid() && inserted == old(inserted)
      ensures forall limit: nat :: old(Within(limit)) ==> Within(limit)
      ensures SameKey(r.e, formulaBucket) && r.hashValue == hash(formulaBucket.data, formulaBucket.header)
      ensures r.defined ==> r.e in inserted
      ensures r.defined ==> Candidate(r.hashValue, r.e)
      ensures !r.defined ==> forall b :: Candidate(r.hashValue, b) ==> !SameKey(b, formulaBucket)
      ensures forall h: nat, b :: Candidate(h, b) <==> old(Candidate(h, b)) && !(cleaning.due(tick) && cleaning.evict(tick, b))
      ensures r.defined <==> old(Hits(formulaBucket, tick))
      ensures r.defined ==> Holds(formulaBucket, r.e.fc)
      ensures limitVarCached ==
        if !cleaning.due(tick) then old(limitVarCached) else if cleaning.limit(tick) <= nbInitVar then cleaning.limit(tick) else nbInitVar
      ensures nbEntry == old(nbEntry)
    {
      if cleaning.due(tick) {
        limitVarCached := if cleaning.limit(tick) <= nbInitVar then cleaning.limit(tick) else nbInitVar;
        RemoveEntry(b => cleaning.evict(tick, b));
      }
      var hashValue := hash(formulaBucket.data, formulaBucket.header);
      var found, cacheBucket := BucketAlreadyExist(formulaBucket, hashValue);
      if !found {
        return TmpEntry(formulaBucket, hashValue, false);
      }
      return TmpEntry(cacheBucket, hashValue, true);
    }
  }

  /** The elements `test` does not select, in order. */
  function Keep<T>(s: seq<T>, test: T -> bool): seq<T> {
    if s == [] then []
    else Keep(s[..|s| - 1], test) + if test(s[|s| - 1]) then [] else [s[|s| - 1]]
  }

  lemma KeepStep<T>(s: seq<T>, i: nat, test: T -> bool)
    requires i < |s|
    ensures Keep(s[..i + 1], test) == Keep(s[..i], test) + if test(s[i]) then [] else [s[i]]
  {
    assert s[..i + 1][..i] == s[..i];
  }

  lemma {:induction false} KeepHolds<T>(s: seq<T>, test: T -> bool, b: T)
    ensures b in Keep(s, test) <==> b in s && !test(b)
  {
    if s != [] {
      KeepHolds(s[..|s| - 1], test, b);
      assert s == s[..|s| - 1] + [s[|s| - 1]];
    }
  }
}
