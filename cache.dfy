/**
 * The bounded least-recently-used document cache of app/cache.py.
 *
 * The cache keeps its entries in a Python `OrderedDict`: a dictionary whose
 * keys also carry an order, oldest (least recently used) first. Here that
 * dictionary is the value `OrderedDict(order, data)`: the key order as a
 * sequence and the stored values as a map. The class `PDFCache` owns one and
 * reassigns it in `Get`, `Set` and `Clear`, as the Python methods mutate
 * theirs with `move_to_end`, key insertion, `popitem(last=False)` and
 * `clear()`. The functions `AfterGet` and `AfterSet` state each method's
 * effect on the entries; the lemmas below them prove what that effect means.
 */
module Cache {
  import opened Wrappers

  /** Capacity of a cache built without an explicit `max_size`. */
  const DefaultMaxSize := 2

  /** Capacity of the process-wide instance `pdf_cache`. */
  const GlobalMaxSize := 10

  /** The entries of one cache: keys oldest first, and the value of each key. */
  datatype OrderedDict<K, V> = OrderedDict(order: seq<K>, data: map<K, V>)

  function Empty<K, V>(): OrderedDict<K, V>
  {
    OrderedDict([], map[])
  }

  predicate Distinct<K(==)>(s: seq<K>)
  {
    forall i, j :: 0 <= i < j < |s| ==> s[i] != s[j]
  }

  /** The key order lists every stored key, and each one only once. */
  predicate WellFormed<K(==), V>(d: OrderedDict<K, V>)
  {
    && Distinct(d.order)
    && (forall k | k in d.order :: k in d.data)
    && (forall k | k in d.data :: k in d.order)
  }

  /** The most entries a cache of capacity `maxSize` can hold. */
  function Capacity(maxSize: int): nat
  {
    if maxSize < 0 then 0 else maxSize
  }

  /** The object invariant of a cache: well formed and within its capacity. */
  predicate Invariant<K(==), V>(d: OrderedDict<K, V>, maxSize: int)
  {
    WellFormed(d) && |d.order| <= Capacity(maxSize)
  }

  /** The keys of `s` other than `k`, in their order. */
  function Remove<K(==)>(s: seq<K>, k: K): (r: seq<K>)
    ensures |r| <= |s|
  {
    if s == [] then []
    else if s[0] == k then Remove(s[1..], k)
    else [s[0]] + Remove(s[1..], k)
  }

  /** Removing `k` keeps exactly the other keys; from a duplicate-free order it removes one position. */
  lemma {:induction false} RemoveFacts<K>(s: seq<K>, k: K)
    ensures forall x :: x in Remove(s, k) <==> x in s && x != k
    ensures k !in s ==> Remove(s, k) == s
    ensures Distinct(s) ==> Distinct(Remove(s, k))
    ensures Distinct(s) && k in s ==> |Remove(s, k)| == |s| - 1
  {
    if s != [] {
      RemoveFacts(s[1..], k);
      if s[0] != k {
        var rest := Remove(s[1..], k);
        assert Remove(s, k) == [s[0]] + rest;
        if Distinct(s) {
          assert s[0] !in s[1..];
          assert s[0] !in rest;
          assert Distinct([s[0]] + rest) by {
            forall i, j | 0 <= i < j < |rest| + 1
              ensures ([s[0]] + rest)[i] != ([s[0]] + rest)[j]
            {
              if i > 0 {
                assert ([s[0]] + rest)[i] == rest[i - 1];
              } else {
                assert ([s[0]] + rest)[j] in rest;
              }
            }
          }
        }
      } else if Distinct(s) {
        assert s[0] !in s[1..];
      }
    }
  }

  lemma {:induction false} DistinctAppend<K>(s: seq<K>, k: K)
    requires Distinct(s) && k !in s
    ensures Distinct(s + [k])
  {
    forall i, j | 0 <= i < j < |s + [k]|
      ensures (s + [k])[i] != (s + [k])[j]
    {
      if j == |s| {
        assert (s + [k])[i] == s[i];
      }
    }
  }

  /** Removing the key at position `i` of a duplicate-free order cuts out exactly that position. */
  lemma {:induction false} RemoveAt<K>(s: seq<K>, i: nat)
    requires Distinct(s) && i < |s|
    ensures Remove(s, s[i]) == s[..i] + s[i + 1..]
  {
    if i == 0 {
      assert s[0] !in s[1..];
      RemoveFacts(s[1..], s[0]);
    } else {
      RemoveAt(s[1..], i - 1);
      assert s[1..][i - 1] == s[i];
      assert s[..i] == [s[0]] + s[1..][..i - 1];
      assert s[i + 1..] == s[1..][i..];
    }
  }

  /** A duplicate-free sequence has as many distinct elements as positions. */
  lemma {:induction false} DistinctCard<K>(s: seq<K>)
    requires Distinct(s)
    ensures |set x | x in s| == |s|
  {
    if s != [] {
      DistinctCard(s[1..]);
      assert (set x | x in s) == {s[0]} + (set x | x in s[1..]);
      assert s[0] !in (set x | x in s[1..]);
    }
  }

  /** `len(self.cache)`: the key order and the map agree on the number of entries. */
  lemma SizeAgrees<K, V>(d: OrderedDict<K, V>)
    requires WellFormed(d)
    ensures |d.data| == |d.order|
  {
    assert d.data.Keys == set x | x in d.order;
    DistinctCard(d.order);
  }

  /** `move_to_end(key)`: `key` becomes the most recently used entry. */
  function MoveToEnd<K(==), V>(d: OrderedDict<K, V>, key: K): OrderedDict<K, V>
    requires key in d.data
  {
    OrderedDict(Remove(d.order, key) + [key], d.data)
  }

  /** `self.cache[key] = value` for a key not yet stored: it joins at the most recent end. */
  function Insert<K(==), V>(d: OrderedDict<K, V>, key: K, value: V): OrderedDict<K, V>
    requires key !in d.data
  {
    OrderedDict(d.order + [key], d.data[key := value])
  }

  /** `popitem(last=False)`: the oldest entry leaves. */
  function PopOldest<K(==), V>(d: OrderedDict<K, V>): OrderedDict<K, V>
    requires d.order != []
  {
    OrderedDict(d.order[1..], d.data - {d.order[0]})
  }

  /** What `get` returns: the stored value, or `None` for an absent key. */
  function Lookup<K(==), V>(d: OrderedDict<K, V>, key: K): Option<V>
  {
    if key in d.data then Some(d.data[key]) else None
  }

  /** The entries after `get(key)` (app/cache.py:14-20). */
  function AfterGet<K(==), V>(d: OrderedDict<K, V>, key: K): OrderedDict<K, V>
  {
    if key in d.data then MoveToEnd(d, key) else d
  }

  /** The entries after `set(key, value)` (app/cache.py:22-30). */
  function AfterSet<K(==), V>(d: OrderedDict<K, V>, key: K, value: V, maxSize: int): OrderedDict<K, V>
  {
    if key in d.data then MoveToEnd(d, key)
    else
      var grown := Insert(d, key, value);
      if |grown.order| > maxSize then PopOldest(grown) else grown
  }

  /**
   * Moving a stored key to the end keeps every value, keeps the size, puts
   * the key last and leaves the other keys in their relative order.
   */
  lemma MoveToEndEffect<K, V>(d: OrderedDict<K, V>, key: K)
    requires WellFormed(d) && key in d.data
    ensures WellFormed(MoveToEnd(d, key))
    ensures MoveToEnd(d, key).data == d.data
    ensures |MoveToEnd(d, key).order| == |d.order|
    ensures MoveToEnd(d, key).order[|d.order| - 1] == key
    ensures forall i :: 0 <= i < |d.order| && d.order[i] == key ==>
      MoveToEnd(d, key).order == d.order[..i] + d.order[i + 1..] + [key]
  {
    var rest := Remove(d.order, key);
    RemoveFacts(d.order, key);
    DistinctAppend(rest, key);
    forall i | 0 <= i < |d.order| && d.order[i] == key
      ensures MoveToEnd(d, key).order == d.order[..i] + d.order[i + 1..] + [key]
    {
      RemoveAt(d.order, i);
    }
  }

  /** A new key joins a well-formed cache as its last entry. */
  lemma InsertEffect<K, V>(d: OrderedDict<K, V>, key: K, value: V)
    requires WellFormed(d) && key !in d.data
    ensures WellFormed(Insert(d, key, value))
    ensures |Insert(d, key, value).order| == |d.order| + 1
  {
    DistinctAppend(d.order, key);
  }

  /** Dropping the oldest entry of a well-formed cache removes its key and value. */
  lemma PopOldestEffect<K, V>(d: OrderedDict<K, V>)
    requires WellFormed(d) && d.order != []
    ensures WellFormed(PopOldest(d))
    ensures |PopOldest(d).order| == |d.order| - 1
  {
    assert d.order[0] !in d.order[1..];
  }

  /**
   * `get`: a miss returns `None` and changes nothing; a hit returns the
   * stored value, keeps every value and moves only the key found to the
   * most recent end. Either way the cache stays within its capacity.
   */
  lemma GetEffect<K, V>(d: OrderedDict<K, V>, maxSize: int, key: K)
    requires Invariant(d, maxSize)
    ensures Invariant(AfterGet(d, key), maxSize)
    ensures key !in d.data ==> Lookup(d, key) == None && AfterGet(d, key) == d
    ensures key in d.data ==>
      && Lookup(d, key) == Some(d.data[key])
      && AfterGet(d, key).data == d.data
      && |AfterGet(d, key).order| == |d.order|
      && AfterGet(d, key).order[|d.order| - 1] == key
      && forall i :: 0 <= i < |d.order| && d.order[i] == key ==>
           AfterGet(d, key).order == d.order[..i] + d.order[i + 1..] + [key]
  {
    if key in d.data {
      MoveToEndEffect(d, key);
    }
  }

  /**
   * `set` on a stored key is a touch: the value already stored stays (the
   * new one is ignored), the size stays and the key moves to the most recent
   * end, the others keeping their relative order.
   */
  lemma SetExistingEffect<K, V>(d: OrderedDict<K, V>, maxSize: int, key: K, value: V)
    requires Invariant(d, maxSize) && key in d.data
    ensures Invariant(AfterSet(d, key, value, maxSize), maxSize)
    ensures AfterSet(d, key, value, maxSize).data == d.data
    ensures |AfterSet(d, key, value, maxSize).order| == |d.order|
    ensures AfterSet(d, key, value, maxSize).order[|d.order| - 1] == key
    ensures forall i :: 0 <= i < |d.order| && d.order[i] == key ==>
      AfterSet(d, key, value, maxSize).order == d.order[..i] + d.order[i + 1..] + [key]
  {
    MoveToEndEffect(d, key);
  }

  /**
   * `set` on a new key appends it with `value`. Below capacity nothing else
   * changes; at capacity exactly one entry, the oldest, is evicted, and with
   * a capacity of at least one that is never the new key. With a capacity of
   * zero or less the new key itself is evicted at once.
   */
  lemma SetNewEffect<K, V>(d: OrderedDict<K, V>, maxSize: int, key: K, value: V)
    requires Invariant(d, maxSize) && key !in d.data
    ensures Invariant(AfterSet(d, key, value, maxSize), maxSize)
    ensures |d.order| < maxSize ==>
      && AfterSet(d, key, value, maxSize).order == d.order + [key]
      && AfterSet(d, key, value, maxSize).data == d.data[key := value]
    ensures 1 <= maxSize <= |d.order| ==>
      && d.order[0] != key
      && AfterSet(d, key, value, maxSize).order == d.order[1..] + [key]
      && AfterSet(d, key, value, maxSize).data == (d.data - {d.order[0]})[key := value]
    ensures 1 <= maxSize ==>
      key in AfterSet(d, key, value, maxSize).data && AfterSet(d, key, value, maxSize).data[key] == value
    ensures maxSize <= 0 ==> AfterSet(d, key, value, maxSize) == d
  {
    var grown := Insert(d, key, value);
    InsertEffect(d, key, value);
    if |grown.order| > maxSize {
      PopOldestEffect(grown);
      if 1 <= maxSize {
        assert d.order[0] in d.data;
        assert grown.order[0] == d.order[0];
        assert grown.order[1..] == d.order[1..] + [key];
        assert PopOldest(grown).data == (d.data - {d.order[0]})[key := value];
      } else {
        assert d.order == [];
      }
    }
  }

  /** One call on a cache, as a caller makes it. */
  datatype Call<K, V> = GetCall(key: K) | SetCall(key: K, value: V) | ClearCall

  /** The entries after one call; `clear` empties them (app/cache.py:32-34). */
  function Step<K(==), V>(d: OrderedDict<K, V>, call: Call<K, V>, maxSize: int): OrderedDict<K, V>
  {
    match call
    case GetCall(key) => AfterGet(d, key)
    case SetCall(key, value) => AfterSet(d, key, value, maxSize)
    case ClearCall => Empty()
  }

  /** The entries after a sequence of calls, the first call first. */
  function Replay<K(==), V>(d: OrderedDict<K, V>, calls: seq<Call<K, V>>, maxSize: int): OrderedDict<K, V>
    decreases |calls|
  {
    if calls == [] then d else Replay(Step(d, calls[0], maxSize), calls[1..], maxSize)
  }

  /** Every call keeps the object invariant. */
  lemma StepKeepsInvariant<K, V>(d: OrderedDict<K, V>, call: Call<K, V>, maxSize: int)
    requires Invariant(d, maxSize)
    ensures Invariant(Step(d, call, maxSize), maxSize)
  {
    match call
    case GetCall(key) => GetEffect(d, maxSize, key);
    case SetCall(key, value) =>
      if key in d.data {
        SetExistingEffect(d, maxSize, key, value);
      } else {
        SetNewEffect(d, maxSize, key, value);
      }
    case ClearCall =>
  }

  /** Any sequence of calls keeps the object invariant. */
  lemma {:induction false} ReplayKeepsInvariant<K, V>(d: OrderedDict<K, V>, calls: seq<Call<K, V>>, maxSize: int)
    requires Invariant(d, maxSize)
    ensures Invariant(Replay(d, calls, maxSize), maxSize)
    decreases |calls|
  {
    if calls != [] {
      StepKeepsInvariant(d, calls[0], maxSize);
      ReplayKeepsInvariant(Step(d, calls[0], maxSize), calls[1..], maxSize);
    }
  }

  /**
   * Starting from an empty cache, after any sequence of `get`, `set` and
   * `clear` calls the cache holds at most `maxSize` entries, each key once.
   */
  lemma CapacityBound<K, V>(calls: seq<Call<K, V>>, maxSize: int)
    ensures |Replay(Empty(), calls, maxSize).data| <= Capacity(maxSize)
    ensures |Replay(Empty(), calls, maxSize).data| == |Replay(Empty(), calls, maxSize).order|
    ensures Distinct(Replay(Empty(), calls, maxSize).order)
  {
    ReplayKeepsInvariant(Empty<K, V>(), calls, maxSize);
    SizeAgrees(Replay(Empty(), calls, maxSize));
  }

  /** The cache object: `self.cache` and `self.max_size`. */
  class PDFCache<K(==), V> {
    /** The entries, least recently used first. */
    var cache: OrderedDict<K, V>
    /** The capacity; never changed after construction. */
    var maxSize: int

    ghost predicate Valid()
      reads this
    {
      Invariant(cache, maxSize)
    }

    /** `PDFCache(max_size)`: an empty cache. The capacity is not checked. */
    constructor (maxSize: int := DefaultMaxSize)
      ensures Valid() && cache == Empty() && this.maxSize == maxSize
    {
      cache := Empty();
      this.maxSize := maxSize;
    }

    /** `get(pdf_hash)`: the stored value, if any; a hit becomes the most recently used. */
    method Get(key: K) returns (r: Option<V>)
      requires Valid()
      modifies this`cache
      ensures Valid()
      ensures r == Lookup(old(cache), key)
      ensures cache == AfterGet(old(cache), key)
    {
      GetEffect(cache, maxSize, key);
      if key in cache.data {
        cache := MoveToEnd(cache, key);
        r := Some(cache.data[key]);
      } else {
        r := None;
      }
    }

    /** `set(pdf_hash, data)`: store a new key, evicting the oldest when over capacity. */
    method Set(key: K, data: V)
      requires Valid()
      modifies this`cache
      ensures Valid()
      ensures cache == AfterSet(old(cache), key, data, maxSize)
    {
      if key in cache.data {
        SetExistingEffect(cache, maxSize, key, data);
        cache := MoveToEnd(cache, key);
      } else {
        SetNewEffect(cache, maxSize, key, data);
        cache := Insert(cache, key, data);
        if |cache.order| > maxSize {
          cache := PopOldest(cache);
        }
      }
    }

    /** `clear()`: every entry goes; the capacity stays. */
    method Clear()
      requires Valid()
      modifies this`cache
      ensures Valid()
      ensures cache == Empty() && maxSize == old(maxSize)
    {
      cache := Empty();
    }
  }

  /** The process-wide instance `pdf_cache`: an empty cache of capacity ten. */
  method NewGlobalCache<K(==), V>() returns (c: PDFCache<K, V>)
    ensures fresh(c) && c.Valid()
    ensures c.cache == Empty() && c.maxSize == GlobalMaxSize
  {
    c := new PDFCache(GlobalMaxSize);
  }

  /**
   * The four calls of the scenario below, one at a time, on a cache of
   * capacity two: `set(a)` and `set(b)` append, `get(a)` moves `a` behind
   * `b`, and `set(c)` appends `c` and evicts the oldest key, `b`.
   */
  lemma LruScenarioSteps<K, V>(a: K, b: K, c: K, va: V, vb: V, vc: V)
    requires a != b && b != c && a != c
    ensures AfterSet(Empty(), a, va, 2) == OrderedDict([a], map[a := va])
    ensures AfterSet(OrderedDict([a], map[a := va]), b, vb, 2) == OrderedDict([a, b], map[a := va, b := vb])
    ensures AfterGet(OrderedDict([a, b], map[a := va, b := vb]), a) == OrderedDict([b, a], map[a := va, b := vb])
    ensures AfterSet(OrderedDict([b, a], map[a := va, b := vb]), c, vc, 2) == OrderedDict([a, c], map[a := va, c := vc])
  {
    assert [a, b][1..] == [b];
    RemoveAt([a, b], 0);
  }

  /**
   * With capacity two, `set(a)`, `set(b)`, `get(a)`, `set(c)` on a new
   * cache: the `get` is a hit, `b` is evicted, and `a` then `c` remain, each
   * with the value stored for it.
   */
  method LruScenario<K(==), V>(a: K, b: K, c: K, va: V, vb: V, vc: V)
    returns (order: seq<K>, stored: map<K, V>, hit: Option<V>)
    requires a != b && b != c && a != c
    ensures hit == Some(va)
    ensures order == [a, c]
    ensures stored == map[a := va, c := vc]
  {
    var cache := new PDFCache<K, V>(2);
    cache.Set(a, va);
    cache.Set(b, vb);
    hit := cache.Get(a);
    cache.Set(c, vc);
    LruScenarioSteps(a, b, c, va, vb, vc);
    order, stored := cache.cache.order, cache.cache.data;
  }
}
