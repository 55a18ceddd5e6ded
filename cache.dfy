/**
 * The reference-counted cache (`AbstractCache.java`). A resource stays resident while anyone
 * holds a reference to it; the last `release` writes it back and evicts it. The two hooks a
 * subclass supplies become values: the result of `getForCache` is a parameter of `Get`
 * (`None` when the fetch throws), and every object handed to `releaseForCache` is appended to
 * `released`. The lock and the waiting of other threads are not modelled: a key that another
 * thread is still fetching makes `Get` report `Busy`, where the source sleeps and retries.
 */
module AbstractCache {
  import opened Wrappers

  datatype GetOutcome<T> = Busy | Found(obj: T) | CacheFull | FetchFailed

  datatype CacheState<T> = CacheState(
    cache: map<int, T>,
    references: map<int, int>,
    getting: set<int>,
    maxResource: int,
    count: int,
    released: seq<T>)

  /** Between calls: every resident key has a reference count of at least one, `count` counts
      the resident keys and the ones being fetched, and a positive `maxResource` bounds it. */
  predicate Valid<T>(s: CacheState<T>)
  {
    && s.cache.Keys == s.references.Keys
    && (forall k :: k in s.references ==> s.references[k] >= 1)
    && s.getting !! s.cache.Keys
    && s.count == |s.cache.Keys| + |s.getting|
    && (s.maxResource > 0 ==> s.count <= s.maxResource)
  }

  /** `get(key)`, with `fetched` standing for what `getForCache(key)` returns or throws. */
  function GetSpec<T>(s: CacheState<T>, key: int, fetched: Option<T>): (r: (CacheState<T>, GetOutcome<T>))
    requires s.cache.Keys <= s.references.Keys
    ensures r.0.released == s.released && r.0.getting == s.getting && r.0.maxResource == s.maxResource
    ensures r.1.Found? ==> key in r.0.cache && r.0.cache[key] == r.1.obj
    ensures !r.1.Found? ==> r.0 == s
  {
    if key in s.getting then (s, Busy)
    else if key in s.cache then
      (s.(references := s.references[key := s.references[key] + 1]), Found(s.cache[key]))
    else if s.maxResource > 0 && s.count == s.maxResource then (s, CacheFull)
    else match fetched
      // count++ and getting.put(key) are undone before the exception is rethrown
      case None => (s, FetchFailed)
      case Some(obj) =>
        (s.(cache := s.cache[key := obj], references := s.references[key := 1], count := s.count + 1),
         Found(obj))
  }

  /** A resident key is served from the cache: one more reference, nothing fetched. */
  lemma GetResident<T>(s: CacheState<T>, key: int, fetched: Option<T>)
    requires Valid(s) && key in s.cache
    ensures var (t, r) := GetSpec(s, key, fetched);
      && r == Found(s.cache[key])
      && t == s.(references := s.references[key := s.references[key] + 1])
      && t.count == s.count && t.cache == s.cache && t.released == s.released
  {
  }

  /** A miss when the cache is full changes nothing; a limit of zero or less never fills. */
  lemma GetFull<T>(s: CacheState<T>, key: int, fetched: Option<T>)
    requires Valid(s) && key !in s.cache && key !in s.getting
    ensures GetSpec(s, key, fetched).1 == CacheFull <==> s.maxResource > 0 && s.count == s.maxResource
    ensures GetSpec(s, key, fetched).1 == CacheFull ==> GetSpec(s, key, fetched).0 == s
  {
  }

  /** A miss with room: a successful fetch makes the object resident with one reference; a
      failed one leaves the state as it was. */
  lemma GetMiss<T>(s: CacheState<T>, key: int, fetched: Option<T>)
    requires Valid(s) && key !in s.cache && key !in s.getting
    requires s.maxResource <= 0 || s.count != s.maxResource
    ensures var (t, r) := GetSpec(s, key, fetched);
      match fetched
      case None => r == FetchFailed && t == s
      case Some(obj) =>
        && r == Found(obj) && t.cache == s.cache[key := obj] && t.references[key] == 1
        && t.count == s.count + 1 && key !in t.getting && t.released == s.released
  {
  }

  lemma GetPreservesValid<T>(s: CacheState<T>, key: int, fetched: Option<T>)
    requires Valid(s)
    ensures Valid(GetSpec(s, key, fetched).0)
  {
    if key !in s.getting && key !in s.cache && fetched.Some? && !(s.maxResource > 0 && s.count == s.maxResource) {
      assert (s.cache.Keys + {key}) - {key} == s.cache.Keys;
      assert |s.cache.Keys + {key}| == |s.cache.Keys| + 1;
      assert s.cache[key := fetched.value].Keys == s.cache.Keys + {key};
    }
  }

  /** `release(key)`: the source dereferences the count of `key`, so the key must be resident. */
  function ReleaseSpec<T>(s: CacheState<T>, key: int): (t: CacheState<T>)
    requires key in s.references && key in s.cache
    ensures t.cache.Keys <= s.cache.Keys && t.getting == s.getting
    ensures key in t.cache <==> s.references[key] != 1
    ensures t.released == if key in t.cache then s.released else s.released + [s.cache[key]]
  {
    var ref := s.references[key] - 1;
    if ref == 0 then
      s.(released := s.released + [s.cache[key]], references := s.references - {key},
         cache := s.cache - {key}, count := s.count - 1)
    else
      s.(references := s.references[key := ref])
  }

  /** Only the last reference writes back and evicts. */
  lemma ReleaseOutcome<T>(s: CacheState<T>, key: int)
    requires Valid(s) && key in s.cache
    ensures var t := ReleaseSpec(s, key);
      if s.references[key] == 1 then
        && t.released == s.released + [s.cache[key]] && key !in t.cache && key !in t.references
        && t.count == s.count - 1
      else
        && t.released == s.released && t.cache == s.cache && t.references[key] == s.references[key] - 1
        && t.count == s.count
    ensures Valid(ReleaseSpec(s, key))
  {
    if s.references[key] == 1 {
      assert (s.cache - {key}).Keys + {key} == s.cache.Keys;
      assert |s.cache.Keys| == |(s.cache - {key}).Keys| + 1;
    }
  }

  /** `n` releases of one key. */
  function ReleaseTimes<T>(s: CacheState<T>, key: int, n: nat): CacheState<T>
    requires Valid(s) && (n == 0 || (key in s.cache && n <= s.references[key]))
    decreases n
  {
    if n == 0 then s
    else
      ReleaseOutcome(s, key);
      ReleaseTimes(ReleaseSpec(s, key), key, n - 1)
  }

  /** Releasing as many times as there are references writes the object back exactly once, at
      the last release; any fewer releases write back nothing. */
  lemma {:induction false} WriteBackOnce<T>(s: CacheState<T>, key: int, n: nat)
    requires Valid(s) && key in s.cache && 1 <= n <= s.references[key]
    ensures var t := ReleaseTimes(s, key, n);
      if n < s.references[key] then
        && t.released == s.released && t.cache == s.cache
        && key in t.references && t.references[key] == s.references[key] - n
      else
        && t.released == s.released + [s.cache[key]] && key !in t.cache && t.count == s.count - 1
    decreases n
  {
    ReleaseOutcome(s, key);
    var s1 := ReleaseSpec(s, key);
    if n > 1 {
      WriteBackOnce(s1, key, n - 1);
    }
  }

  /** The objects of `keys`, in that order. */
  function ValuesOf<T>(m: map<int, T>, keys: seq<int>): (r: seq<T>)
    requires forall i :: 0 <= i < |keys| ==> keys[i] in m
    ensures |r| == |keys|
    ensures forall i :: 0 <= i < |keys| ==> r[i] == m[keys[i]]
  {
    if keys == [] then [] else [m[keys[0]]] + ValuesOf(m, keys[1..])
  }

  /** `close` as written. The loop removes entries from the map whose key set it iterates, so
      with two or more resident keys the iterator's second step throws
      `ConcurrentModificationException` after one write-back. `first` is the key the hash map
      yields first; the result says whether the call threw. */
  function CloseAsWritten<T>(s: CacheState<T>, first: int): (r: (CacheState<T>, bool))
    requires s.cache != map[] ==> first in s.cache
    ensures r.0.count == s.count && r.0.cache.Keys <= s.cache.Keys
    ensures |s.released| <= |r.0.released| <= |s.released| + 1 && r.0.released[..|s.released|] == s.released
  {
    if s.cache == map[] then (s, false)
    else
      (s.(released := s.released + [s.cache[first]], references := s.references - {first},
          cache := s.cache - {first}),
       |s.cache.Keys| >= 2)
  }

  /** As written, `close` throws exactly when two or more objects are resident, and then all
      but the first of them stay resident and are never written back. */
  lemma CloseAsWrittenThrows<T>(s: CacheState<T>, first: int)
    requires s.cache != map[] ==> first in s.cache
    ensures var (t, threw) := CloseAsWritten(s, first);
      && (threw <==> |s.cache.Keys| >= 2)
      && (threw ==> |t.released| == |s.released| + 1 && t.cache != map[])
  {
    if |s.cache.Keys| >= 2 {
      var t := CloseAsWritten(s, first).0;
      assert t.cache.Keys == s.cache.Keys - {first};
      assert |t.cache.Keys| == |s.cache.Keys| - 1;
    }
  }

  class AbstractCache<T> {
    var cache: map<int, T>
    var references: map<int, int>
    var getting: set<int>
    const maxResource: int
    var count: int
    /** The objects handed to `releaseForCache`, in order. */
    var released: seq<T>

    ghost function State(): CacheState<T>
      reads this
    {
      CacheState(cache, references, getting, maxResource, count, released)
    }

    constructor (maxResource: int)
      ensures State() == CacheState(map[], map[], {}, maxResource, 0, []) && Valid(State())
    {
      this.maxResource := maxResource;
      cache := map[];
      references := map[];
      getting := {};
      count := 0;
      released := [];
    }

    /** `get(key)`; `fetched` is what `getForCache(key)` returns, or `None` when it throws. */
    method Get(key: int, fetched: Option<T>) returns (r: GetOutcome<T>)
      requires cache.Keys <= references.Keys
      modifies this
      ensures (State(), r) == GetSpec(old(State()), key, fetched)
    {
      if key in getting {
        return Busy;
      }
      if key in cache {
        var obj := cache[key];
        references := references[key := references[key] + 1];
        return Found(obj);
      }
      if maxResource > 0 && count == maxResource {
        return CacheFull;
      }
      count := count + 1;
      getting := getting + {key};
      if fetched.None? {
        count := count - 1;
        getting := getting - {key};
        return FetchFailed;
      }
      var obj := fetched.value;
      getting := getting - {key};
      cache := cache[key := obj];
      references := references[key := 1];
      return Found(obj);
    }

    /** `release(key)`. */
    method Release(key: int)
      requires key in references && key in cache
      modifies this
      ensures State() == ReleaseSpec(old(State()), key)
    {
      var ref := references[key] - 1;
      if ref == 0 {
        var obj := cache[key];
        released := released + [obj];
        references := references - {key};
        cache := cache - {key};
        count := count - 1;
      } else {
        references := references[key := ref];
      }
    }

    /** `close`, over a snapshot of the resident keys, so every resident object is written back
        once, in the map's iteration order (`order`). `count` is not reset. */
    method Close() returns (ghost order: seq<int>)
      modifies this
      ensures cache == map[] && references == old(references) - old(cache).Keys
      ensures getting == old(getting) && count == old(count)
      ensures |order| == |old(cache).Keys| && (forall k :: k in order <==> k in old(cache))
      ensures forall i, j :: 0 <= i < j < |order| ==> order[i] != order[j]
      ensures forall i :: 0 <= i < |order| ==> order[i] in old(cache)
      ensures released == old(released) + ValuesOf(old(cache), order)
    {
      ghost var c0, r0, rel0 := cache, references, released;
      order := [];
      while cache != map[]
        modifies this`cache, this`references, this`released
        invariant Closing(c0, r0, rel0, cache, references, released, order)
        decreases |cache.Keys|
      {
        ghost var some := Pick(cache.Keys);
        var key :| key in cache;
        var obj := cache[key];
        CloseStep(c0, r0, rel0, cache, references, released, order, key);
        released := released + [obj];
        references := references - {key};
        cache := cache - {key};
        order := order + [key];
      }
      ClosingDone(c0, r0, cache, references, order);
    }
  }

  /** What `close` has done so far: the keys in `order` have been written back and removed,
      once each, and the rest of the cache is as it was. */
  ghost predicate Closing<T>(c0: map<int, T>, r0: map<int, int>, rel0: seq<T>,
                             cache: map<int, T>, references: map<int, int>, released: seq<T>, order: seq<int>)
  {
    && ClosingMap(c0, r0, cache, references)
    && ClosingOrder(c0, cache, order)
    && released == rel0 + ValuesOf(c0, order)
  }

  ghost predicate ClosingMap<T>(c0: map<int, T>, r0: map<int, int>, cache: map<int, T>, references: map<int, int>)
  {
    && (forall k :: k in cache ==> k in c0 && cache[k] == c0[k])
    && (forall k :: k in references <==> k in r0 && (k in c0 ==> k in cache))
    && (forall k :: k in references ==> references[k] == r0[k])
  }

  ghost predicate ClosingOrder<T>(c0: map<int, T>, cache: map<int, T>, order: seq<int>)
  {
    && (forall i :: 0 <= i < |order| ==> order[i] in c0 && order[i] !in cache)
    && (forall k :: k in c0 && k !in cache ==> k in order)
    && (forall i, j :: 0 <= i < j < |order| ==> order[i] != order[j])
  }

  lemma CloseStep<T>(c0: map<int, T>, r0: map<int, int>, rel0: seq<T>,
                     cache: map<int, T>, references: map<int, int>, released: seq<T>, order: seq<int>, key: int)
    requires Closing(c0, r0, rel0, cache, references, released, order) && key in cache
    ensures Closing(c0, r0, rel0, cache - {key}, references - {key}, released + [cache[key]], order + [key])
  {
    ClosingMapStep(c0, r0, cache, references, key);
    ClosingOrderStep(c0, cache, order, key);
    ValuesOfAppend(c0, order, key);
  }

  lemma ClosingMapStep<T>(c0: map<int, T>, r0: map<int, int>, cache: map<int, T>, references: map<int, int>, key: int)
    requires ClosingMap(c0, r0, cache, references) && key in cache
    ensures ClosingMap(c0, r0, cache - {key}, references - {key})
  {
  }

  lemma ClosingOrderStep<T>(c0: map<int, T>, cache: map<int, T>, order: seq<int>, key: int)
    requires ClosingOrder(c0, cache, order) && key in cache && key in c0
    ensures ClosingOrder(c0, cache - {key}, order + [key])
  {
    var o := order + [key];
    forall k | k in c0 && k !in cache - {key}
      ensures k in o
    {
      if k != key {
        assert k in order;
      } else {
        assert o[|order|] == key;
      }
    }
  }

  /** Once the cache is empty, `order` lists every key that was resident, each once. */
  lemma ClosingDone<T>(c0: map<int, T>, r0: map<int, int>, cache: map<int, T>, references: map<int, int>, order: seq<int>)
    requires ClosingMap(c0, r0, cache, references) && ClosingOrder(c0, cache, order) && cache == map[]
    ensures references == r0 - c0.Keys
    ensures |order| == |c0.Keys| && (forall k :: k in order <==> k in c0)
  {
    var gone := r0 - c0.Keys;
    forall k
      ensures k in references <==> k in gone
    {
      assert k !in cache;
    }
    assert references.Keys == gone.Keys;
    assert forall k :: k in gone ==> references[k] == gone[k];
    DistinctCount(order, c0.Keys);
  }

  /** A sequence without repetitions that lists exactly the elements of `s` has `|s|` elements. */
  lemma {:induction false} DistinctCount(order: seq<int>, s: set<int>)
    requires forall i, j :: 0 <= i < j < |order| ==> order[i] != order[j]
    requires forall k :: k in order <==> k in s
    ensures |order| == |s|
    decreases |order|
  {
    if order != [] {
      var last := order[|order| - 1];
      var init := order[..|order| - 1];
      forall k
        ensures k in init <==> k in s - {last}
      {
        if k in init {
          var i :| 0 <= i < |init| && init[i] == k;
          assert order[i] == k;
        }
        if k in s - {last} {
          assert k in order;
          var i :| 0 <= i < |order| && order[i] == k;
          assert i != |order| - 1;
          assert init[i] == k;
        }
      }
      DistinctCount(init, s - {last});
    } else {
      assert forall k :: k !in s;
      assert s == {};
    }
  }

  lemma {:induction false} ValuesOfAppend<T>(m: map<int, T>, keys: seq<int>, k: int)
    requires (forall i :: 0 <= i < |keys| ==> keys[i] in m) && k in m
    ensures ValuesOf(m, keys + [k]) == ValuesOf(m, keys) + [m[k]]
  {
    if keys != [] {
      assert (keys + [k])[1..] == keys[1..] + [k];
      ValuesOfAppend(m, keys[1..], k);
    }
  }
}
