/** `MemoryCacheManager`: the in-memory tier, a thin wrapper over Android's
    `LruCache`. The LRU is modelled as a map of values together with the
    access order of its keys (least recently used first) and the capacity
    it was built with. Every entry counts 1 towards the capacity, since the
    wrapper does not override `sizeOf`. */
module MemoryCacheManager {
  import opened Common

  datatype Lru<V> = Lru(values: map<string, V>, order: seq<string>, capacity: int)

  predicate Distinct(s: seq<string>) {
    forall i, j :: 0 <= i < j < |s| ==> s[i] != s[j]
  }

  /** The representation invariant: the order lists each cached key once,
      and the cache holds at most `capacity` entries. */
  ghost predicate Valid<V>(m: Lru<V>) {
    && Distinct(m.order)
    && (forall k :: k in m.values <==> k in m.order)
    && 0 < m.capacity <= IntMax
    && |m.order| <= m.capacity
  }

  /** `s` without `x`, the rest in order. */
  function Drop(s: seq<string>, x: string): (r: seq<string>)
    ensures forall y :: y in r <==> y in s && y != x
    ensures Distinct(s) ==> Distinct(r)
    ensures |r| <= |s|
    ensures Distinct(s) && x in s ==> |r| == |s| - 1
    ensures x !in s ==> r == s
  {
    if |s| == 0 then []
    else if s[0] == x then Drop(s[1..], x)
    else
      var rest := Drop(s[1..], x);
      assert Distinct(s) ==> s[0] !in s[1..];
      [s[0]] + rest
  }

  /** The key just used becomes the most recently used one. */
  function Touch(s: seq<string>, x: string): (r: seq<string>)
    requires Distinct(s)
    ensures Distinct(r) && forall y :: y in r <==> y in s || y == x
    ensures |r| == if x in s then |s| else |s| + 1
  {
    Drop(s, x) + [x]
  }

  /** The memory size a default tier gets: `(int) maxMemory / 1024 / 8`.
      The cast applies to `maxMemory` alone, before the divisions. */
  function DefaultMaxSize(maxMemory: int): (maxSize: int)
    requires IsLong(maxMemory)
    ensures 0 <= maxMemory <= IntMax ==> maxSize == maxMemory / 1024 / 8
  {
    JavaDiv(JavaDiv(Wrap32(maxMemory), 1024), 8)
  }

  /** `new MemoryCacheManager(maxSize)`: an empty LRU of capacity
      `maxSize * 1024`, an `int` product that wraps. `LruCache` rejects a
      capacity that is not positive (IllegalArgumentException), shown as
      `None`. */
  function New<V>(maxSize: int): (r: Option<Lru<V>>)
    requires IsInt(maxSize)
    ensures r.Some? <==> Wrap32(maxSize * 1024) > 0
    ensures r.Some? ==> Valid(r.value) && r.value.values == map[]
    ensures 0 < maxSize * 1024 <= IntMax ==> r.Some? && r.value.capacity == maxSize * 1024
  {
    var capacity := Wrap32(maxSize * 1024);
    if capacity <= 0 then None else Some(Lru(map[], [], capacity))
  }

  /** `get(key)`: the cached value, or null; a hit becomes the most recently
      used entry. */
  function Get<V>(m: Lru<V>, key: string): (r: (Option<V>, Lru<V>))
    requires Valid(m)
    ensures r.0.Some? <==> key in m.values
    ensures r.0.Some? ==> r.0.value == m.values[key]
    ensures Valid(r.1) && r.1.values == m.values && r.1.capacity == m.capacity
  {
    if key in m.values then (Some(m.values[key]), m.(order := Touch(m.order, key)))
    else (None, m)
  }

  /** `put(key, value)`: an existing entry is dropped first, then the value
      is inserted as the most recently used entry; when that overflows the
      capacity, the least recently used entry is evicted (`trimToSize`). The
      new entry is never the one evicted, and nothing is evicted when the key
      was present or the cache had room. */
  function Put<V>(m: Lru<V>, key: string, v: V): (r: Lru<V>)
    requires Valid(m)
    ensures Valid(r) && r.capacity == m.capacity
    ensures key in r.values && r.values[key] == v
    ensures r.values.Keys <= m.values.Keys + {key}
    ensures forall k :: k in r.values && k != key ==> r.values[k] == m.values[k]
    ensures key in m.values || |m.order| < m.capacity ==> r.values == m.values[key := v]
  {
    var order := Touch(m.order, key);
    var values := m.values[key := v];
    if |order| > m.capacity then
      var eldest := order[0];
      assert eldest != key by { assert order[|order| - 1] == key; }
      DropEldest(values, order);
      Lru(values - {eldest}, order[1..], m.capacity)
    else Lru(values, order, m.capacity)
  }

  /** Evicting the least recently used entry keeps the order and the map in
      step. */
  lemma DropEldest<V>(values: map<string, V>, order: seq<string>)
    requires Distinct(order) && |order| > 0
    requires forall k :: k in values <==> k in order
    ensures Distinct(order[1..])
    ensures forall k :: k in values - {order[0]} <==> k in order[1..]
  {
    forall k | k in order[1..]
      ensures k != order[0]
    {
      var j :| 0 <= j < |order[1..]| && order[1..][j] == k;
      assert order[j + 1] == k;
    }
  }

  /** `remove(key)`: the entry, if any, is dropped. The Java method is
      declared `void`; the flag returned here is whether the key was cached,
      which is what the coordinator's `remove` reads from it. */
  function Remove<V>(m: Lru<V>, key: string): (r: (Lru<V>, bool))
    requires Valid(m)
    ensures Valid(r.0) && r.0.capacity == m.capacity
    ensures r.1 <==> key in m.values
    ensures r.0.values == m.values - {key}
  {
    if key in m.values then (m.(values := m.values - {key}, order := Drop(m.order, key)), true)
    else (m, false)
  }

  /** `contains(key)`: whether `get(key)` is non-null (the lookup still
      counts as a use of the entry). */
  function Contains<V>(m: Lru<V>, key: string): (r: (bool, Lru<V>))
    requires Valid(m)
    ensures r.0 <==> key in m.values
    ensures Valid(r.1) && r.1.values == m.values
  {
    var (found, m') := Get(m, key);
    (found.Some?, m')
  }

  /** `size()`: the number of cached entries. */
  function Size<V>(m: Lru<V>): (n: int)
    requires Valid(m)
    ensures n == |m.values|
    ensures 0 <= n <= m.capacity
  {
    OrderCountsEntries(m);
    |m.order|
  }

  /** The order lists exactly the cached keys, once each, so its length is
      the number of entries. */
  lemma OrderCountsEntries<V>(m: Lru<V>)
    requires Valid(m)
    ensures |m.order| == |m.values|
  {
    DistinctCount(m.order);
    assert m.values.Keys == set k | k in m.order;
  }

  /** A sequence without repeats has as many elements as the set of its
      elements. */
  lemma {:induction false} DistinctCount(s: seq<string>)
    requires Distinct(s)
    ensures |set k | k in s| == |s|
  {
    if |s| > 0 {
      assert Distinct(s[1..]) by {
        forall i, j | 0 <= i < j < |s[1..]| ensures s[1..][i] != s[1..][j] {
          assert s[1..][i] == s[i + 1] && s[1..][j] == s[j + 1];
        }
      }
      DistinctCount(s[1..]);
      assert s[0] !in s[1..];
      assert (set k | k in s) == (set k | k in s[1..]) + {s[0]};
    }
  }

  /** `clear()` (`evictAll`). */
  function Clear<V>(m: Lru<V>): (r: Lru<V>)
    requires Valid(m)
    ensures Valid(r) && r.values == map[] && r.capacity == m.capacity
  {
    m.(values := map[], order := [])
  }

  /** Put then get returns the value put; a second put on the same key
      replaces the value without adding an entry. */
  lemma PutThenGet<V>(m: Lru<V>, key: string, v: V, w: V)
    requires Valid(m)
    ensures Get(Put(m, key, v), key).0 == Some(v)
    ensures Put(Put(m, key, v), key, w).values == Put(m, key, v).values[key := w]
    ensures Size(Put(Put(m, key, v), key, w)) == Size(Put(m, key, v))
  {
  }

  /** `contains` agrees with `get` being non-null. */
  lemma ContainsIffGetNonNull<V>(m: Lru<V>, key: string)
    requires Valid(m)
    ensures Contains(m, key).0 <==> Get(m, key).0.Some?
  {
  }

  /** Removing an absent key changes nothing; after a removal the key is not
      contained; removing twice leaves what removing once left. */
  lemma RemoveProperties<V>(m: Lru<V>, key: string)
    requires Valid(m)
    ensures key !in m.values ==> Remove(m, key) == (m, false)
    ensures !Contains(Remove(m, key).0, key).0
    ensures Remove(Remove(m, key).0, key).0 == Remove(m, key).0
  {
  }

  /** The entry count after a `put`: one more for a new key, unless the
      cache was full, when the eviction keeps it at the capacity; the same
      for a key already cached. After a `remove` it drops by one exactly
      when the key was cached. */
  lemma SizeAfterPutAndRemove<V>(m: Lru<V>, key: string, v: V)
    requires Valid(m)
    ensures Size(Put(m, key, v)) == if key in m.values then Size(m) else Min(Size(m) + 1, m.capacity)
    ensures Size(Remove(m, key).0) == if key in m.values then Size(m) - 1 else Size(m)
  {
    OrderCountsEntries(m);
    if key in m.values || |m.order| < m.capacity {
      assert Put(m, key, v).values.Keys == m.values.Keys + {key};
    }
  }

  /** After `clear` no key is contained and the size is 0. */
  lemma ClearEmpties<V>(m: Lru<V>, key: string)
    requires Valid(m)
    ensures !Contains(Clear(m), key).0 && Size(Clear(m)) == 0
  {
  }

  /** The capacity arithmetic overflows: a size of 10 MiB, multiplied by
      1024 in `int`, wraps to a negative capacity, and `LruCache` refuses it. */
  lemma TenMebibytesOverflowCapacity<V>()
    ensures Wrap32(10 * 1024 * 1024 * 1024) == IntMin
    ensures New<V>(10 * 1024 * 1024).None?
  {
    assert Wrap32(10 * 1024 * 1024 * 1024) == Wrap32(10 * 1024 * 1024 * 1024 - 2 * TwoTo32);
  }

  /** The default size casts `maxMemory` to `int` before dividing: a heap
      limit of 4 GiB casts to 0 and gives a capacity of 0, which `LruCache`
      refuses; a limit of 256 MiB gives 32768, a capacity of 32768 * 1024
      entries. */
  lemma DefaultSizeCastsFirst<V>()
    ensures DefaultMaxSize(4 * 1024 * 1024 * 1024) == 0
    ensures New<V>(DefaultMaxSize(4 * 1024 * 1024 * 1024)).None?
    ensures DefaultMaxSize(256 * 1024 * 1024) == 32768
    ensures New<V>(DefaultMaxSize(256 * 1024 * 1024)).Some?
  {
    assert Wrap32(4 * 1024 * 1024 * 1024) == Wrap32(4 * 1024 * 1024 * 1024 - TwoTo32);
  }
}
