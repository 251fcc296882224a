/**
 The reference-counted resource map of the resource manager: a path maps to
 a `ReferencedResource`, a Java `int` reference count and the resource. A
 request for a path not in the map loads the resource and stores it with
 count 1; a request for a path in the map adds a reference and hands out the
 stored resource; a release drops a reference and removes the entry once the
 count is no longer positive.

 The count is a 32-bit `int`: `+= 1` and `-= 1` wrap around.
 */
module ResourceCache {
  import opened Results

  const Int32Min: int := -0x8000_0000
  const Int32Max: int := 0x7FFF_FFFF

  /** Java `int` arithmetic: the value congruent to `x` modulo 2^32 in the `int` range. */
  function Wrap32(x: int): (r: int)
    ensures Int32Min <= r <= Int32Max
    ensures (r - x) % 0x1_0000_0000 == 0
    ensures Int32Min <= x <= Int32Max ==> r == x
  {
    (x - Int32Min) % 0x1_0000_0000 + Int32Min
  }

  /** A `ReferencedResource`: its reference count and the resource it holds. */
  datatype Entry<T> = Entry(count: int, resource: T)

  type Cache<T> = map<string, Entry<T>>

  /** What a request hands back: the map afterwards and the resource. */
  datatype Acquired<T> = Acquired(cache: Cache<T>, resource: T)

  /**
   `getMeshResource` on the map: a miss loads and stores the resource with
   count 1, a failed load stores nothing; a hit adds one reference and hands
   out the stored resource without loading.
   */
  function Acquire<T>(c: Cache<T>, key: string, load: string -> Result<T>): (r: Result<Acquired<T>>)
    ensures r.Ok? ==> r.value.cache.Keys == c.Keys + {key}
    ensures key !in c ==> (r.Ok? <==> load(key).Ok?)
    ensures key !in c && r.Err? ==> r.error == load(key).error
    ensures key !in c && r.Ok? ==> r.value.resource == load(key).value && r.value.cache[key] == Entry(1, load(key).value)
    ensures key in c ==> r.Ok? && r.value.resource == c[key].resource
    ensures key in c ==> r.value.cache[key] == Entry(Wrap32(c[key].count + 1), c[key].resource)
    ensures r.Ok? ==> forall k :: k in c && k != key ==> r.value.cache[k] == c[k]
  {
    if key !in c then
      var resource :- load(key);
      Ok(Acquired(c[key := Entry(1, resource)], resource))
    else
      var entry := c[key];
      Ok(Acquired(c[key := entry.(count := Wrap32(entry.count + 1))], entry.resource))
  }

  /**
   `releaseMeshResource` on the map: a path not in the map dereferences
   `null`; otherwise one reference is dropped and the entry is removed when
   the count is no longer positive.
   */
  function Release<T>(c: Cache<T>, key: string): (r: Result<Cache<T>>)
    ensures key !in c ==> r == Err(NullPointer)
    ensures key in c ==> r.Ok?
    ensures key in c ==> (key in r.value <==> Wrap32(c[key].count - 1) > 0)
    ensures key in c && key in r.value ==> r.value[key] == Entry(Wrap32(c[key].count - 1), c[key].resource)
    ensures r.Ok? ==> r.value.Keys <= c.Keys && forall k :: k in c && k != key ==> k in r.value && r.value[k] == c[k]
  {
    if key !in c then Err(NullPointer)
    else
      var count := Wrap32(c[key].count - 1);
      if count <= 0 then Ok(c - {key})
      else Ok(c[key := c[key].(count := count)])
  }

  /** Every stored count is a positive `int`: the map holds only resources someone still references. */
  predicate Valid<T>(c: Cache<T>) {
    forall k :: k in c ==> 0 < c[k].count <= Int32Max
  }

  /** A request keeps the counts positive as long as the count it raises is below the `int` maximum. */
  lemma AcquirePreservesValid<T>(c: Cache<T>, key: string, load: string -> Result<T>)
    requires Valid(c)
    requires key in c ==> c[key].count < Int32Max
    ensures Acquire(c, key, load).Ok? ==> Valid(Acquire(c, key, load).value.cache)
  {
  }

  /** A release keeps the counts positive. */
  lemma ReleasePreservesValid<T>(c: Cache<T>, key: string)
    requires Valid(c)
    ensures Release(c, key).Ok? ==> Valid(Release(c, key).value)
  {
  }

  /** In a valid map a release removes the entry exactly when it held the last reference. */
  lemma ReleaseRemovesLast<T>(c: Cache<T>, key: string)
    requires Valid(c) && key in c
    ensures key !in Release(c, key).value <==> c[key].count == 1
  {
  }

  /** A hit never calls the loader: any two loaders give the same result. */
  lemma AcquireHitLoadsNothing<T>(c: Cache<T>, key: string, load1: string -> Result<T>, load2: string -> Result<T>)
    requires key in c
    ensures Acquire(c, key, load1) == Acquire(c, key, load2)
  {
  }

  /** Two requests for one path hand out the same resource, loaded once. */
  lemma AcquireTwiceShares<T>(c: Cache<T>, key: string, load: string -> Result<T>)
    requires Acquire(c, key, load).Ok?
    ensures var first := Acquire(c, key, load).value;
      && Acquire(first.cache, key, load).Ok?
      && Acquire(first.cache, key, load).value.resource == first.resource
  {
  }

  /** `n` requests for one path, one after another. */
  function AcquireTimes<T>(c: Cache<T>, key: string, load: string -> Result<T>, n: nat): Result<Cache<T>>
  {
    if n == 0 then Ok(c)
    else
      var before :- AcquireTimes(c, key, load, n - 1);
      var acquired :- Acquire(before, key, load);
      Ok(acquired.cache)
  }

  /** `n` releases of one path, one after another. */
  function ReleaseTimes<T>(c: Cache<T>, key: string, n: nat): Result<Cache<T>>
  {
    if n == 0 then Ok(c)
    else
      var after :- Release(c, key);
      ReleaseTimes(after, key, n - 1)
  }

  /** `n` requests for a path not yet loaded load it once and leave its count at `n`. */
  lemma {:induction false} AcquireTimesCounts<T>(c: Cache<T>, key: string, load: string -> Result<T>, n: nat)
    requires key !in c && load(key).Ok? && 1 <= n <= Int32Max
    ensures AcquireTimes(c, key, load, n) == Ok(c[key := Entry(n, load(key).value)])
  {
    if n > 1 {
      AcquireTimesCounts(c, key, load, n - 1);
      var before := c[key := Entry(n - 1, load(key).value)];
      assert Wrap32(n) == n;
      assert before[key := Entry(n, load(key).value)] == c[key := Entry(n, load(key).value)];
    }
  }

  /** `k` releases of an entry with count `m > k` leave it in the map with count `m - k`. */
  lemma {:induction false} ReleaseTimesCounts<T>(c: Cache<T>, key: string, m: nat, k: nat)
    requires key in c && c[key].count == m && k < m <= Int32Max
    ensures ReleaseTimes(c, key, k) == Ok(c[key := Entry(m - k, c[key].resource)])
  {
    if k > 0 {
      assert Wrap32(m - 1) == m - 1;
      var after := Release(c, key).value;
      assert after == c[key := Entry(m - 1, c[key].resource)];
      ReleaseTimesCounts(after, key, m - 1, k - 1);
      assert after[key := Entry(m - k, c[key].resource)] == c[key := Entry(m - k, c[key].resource)];
    } else {
      assert c[key := Entry(m, c[key].resource)] == c;
    }
  }

  /**
   After `n` requests for a path not yet loaded, `n - 1` releases leave one
   reference, and the `n`th removes the entry and gives back the map as it was
   before the first request.
   */
  lemma AcquireReleaseBalance<T>(c: Cache<T>, key: string, load: string -> Result<T>, n: nat)
    requires key !in c && load(key).Ok? && 1 <= n <= Int32Max
    ensures AcquireTimes(c, key, load, n).Ok?
    ensures var loaded := AcquireTimes(c, key, load, n).value;
      && ReleaseTimes(loaded, key, n - 1) == Ok(c[key := Entry(1, load(key).value)])
      && ReleaseTimes(loaded, key, n) == Ok(c)
  {
    AcquireTimesCounts(c, key, load, n);
    ReleaseAll(c, key, load(key).value, n);
  }

  /** `n - 1` releases of an entry with count `n` leave one reference. */
  lemma ReleaseAllButOne<T>(c: Cache<T>, key: string, resource: T, n: nat)
    requires key !in c && 1 <= n <= Int32Max
    ensures ReleaseTimes(c[key := Entry(n, resource)], key, n - 1) == Ok(c[key := Entry(1, resource)])
  {
    var loaded := c[key := Entry(n, resource)];
    ReleaseTimesCounts(loaded, key, n, n - 1);
    assert loaded[key := Entry(1, resource)] == c[key := Entry(1, resource)];
  }

  /** `n` releases of an entry with count `n` remove it. */
  lemma ReleaseAll<T>(c: Cache<T>, key: string, resource: T, n: nat)
    requires key !in c && 1 <= n <= Int32Max
    ensures ReleaseTimes(c[key := Entry(n, resource)], key, n - 1) == Ok(c[key := Entry(1, resource)])
    ensures ReleaseTimes(c[key := Entry(n, resource)], key, n) == Ok(c)
  {
    var loaded := c[key := Entry(n, resource)];
    ReleaseAllButOne(c, key, resource, n);
    ReleaseOnceMore(loaded, key, n - 1);
    assert ReleaseTimes(loaded, key, n) == Release(c[key := Entry(1, resource)], key);
    ReleaseLastReference(c, key, resource);
  }

  /** Releasing the one reference to a path removes exactly its entry. */
  lemma ReleaseLastReference<T>(c: Cache<T>, key: string, resource: T)
    requires key !in c
    ensures Release(c[key := Entry(1, resource)], key) == Ok(c)
  {
    assert Wrap32(0) == 0;
    assert c[key := Entry(1, resource)] - {key} == c;
  }

  /** Releasing `k` times and then once more is releasing `k + 1` times. */
  lemma {:induction false} ReleaseOnceMore<T>(c: Cache<T>, key: string, k: nat)
    requires ReleaseTimes(c, key, k).Ok?
    ensures ReleaseTimes(c, key, k + 1) == Release(ReleaseTimes(c, key, k).value, key)
    decreases k
  {
    if k > 0 {
      ReleaseOnceMore(Release(c, key).value, key, k - 1);
    }
  }

  /** A 32-bit count at its maximum wraps to the minimum on the next request. */
  lemma CountWrapsAtMaximum<T>(c: Cache<T>, key: string, load: string -> Result<T>)
    requires key in c && c[key].count == Int32Max
    ensures Acquire(c, key, load).value.cache[key].count == Int32Min
  {
  }
}
