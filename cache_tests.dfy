/**
  The cache tests: the ordered test dictionary they build caches from and
  compare enumerations against, and the four test scenarios, each a method
  that drives the cache class and is proved to produce the expected
  enumeration.
 */
module ConcurrentLruCacheTests {
  import opened LruSpec
  import LruCache

  /**
    A fixed-size array filled in the order pairs are added, like an ordered
    dictionary that does not sort. Enumerating it yields the whole array,
    slots not yet filled included (they hold default pairs).
   */
  class OrderedTestDictionary<K(0, ==), V(0, ==)> {
    const store: array<(K, V)>
    var index: nat
    /** Every pair passed to Add, in order. */
    ghost var added: seq<(K, V)>

    ghost predicate Valid()
      reads this, store
    {
      index == |added| && forall i :: 0 <= i < |added| && i < store.Length ==> store[i] == added[i]
    }

    constructor (capacity: nat)
      ensures Valid() && fresh(store)
      ensures store.Length == capacity && added == []
    {
      store := new (K, V)[capacity];
      index := 0;
      added := [];
    }

    /**
      The enumeration: the whole backing array, in order. The pairs added so
      far come first, in the order they were added (not sorted).
     */
    function Items(): (r: seq<(K, V)>)
      reads this, store
      ensures |r| == store.Length
      ensures Valid() ==> forall i :: 0 <= i < |added| && i < store.Length ==> r[i] == added[i]
    {
      store[..]
    }

    /**
      Writes the pair at the cursor and advances the cursor. Past the end of
      the array the write fails (ok is false, where the source throws
      IndexOutOfRangeException) after the cursor has already been advanced,
      and the array is unchanged.
     */
    method Add(key: K, value: V) returns (ok: bool)
      requires Valid()
      modifies this, store
      ensures Valid()
      ensures added == old(added) + [(key, value)] && index == old(index) + 1
      ensures ok <==> old(index) < store.Length
      ensures Items() == if ok then old(Items())[old(index) := (key, value)] else old(Items())
    {
      var i := index;
      index := index + 1;
      ok := i < store.Length;
      if ok {
        store[i] := (key, value);
      }
      added := added + [(key, value)];
    }

    /** A cache whose capacity is the array's length, loaded from the whole array in order. */
    method MakeCache() returns (c: LruCache.ConcurrentLruCache<K, V>)
      ensures fresh(c) && fresh(c.keys) && fresh(c.vals) && fresh(c.prev) && fresh(c.next)
      ensures c.Valid() && c.capacity == store.Length
      ensures c.Entries() == Build(Items(), store.Length)
    {
      c := new LruCache.ConcurrentLruCache(store[..]);
    }
  }

  /**
    A collection initializer: a new dictionary of the given capacity with the
    pairs added in order. The first Add that fails aborts the initializer
    (ok is false): that happens exactly when there are more pairs than slots,
    at the pair just past the last slot. Otherwise every pair was added and
    the enumeration starts with the pairs, in the order given.
   */
  method Initialized<K(0, ==), V(0, ==)>(capacity: nat, pairs: seq<(K, V)>) returns (d: OrderedTestDictionary<K, V>, ok: bool)
    ensures fresh(d) && fresh(d.store) && d.Valid() && d.store.Length == capacity
    ensures ok <==> |pairs| <= capacity
    ensures d.added == if ok then pairs else pairs[..capacity + 1]
    ensures forall i :: 0 <= i < |pairs| && i < capacity ==> d.Items()[i] == pairs[i]
  {
    d := new OrderedTestDictionary(capacity);
    ok := true;
    var i := 0;
    while i < |pairs| && ok
      invariant 0 <= i <= |pairs|
      invariant d.Valid() && d.store.Length == capacity && d.added == pairs[..i]
      invariant ok <==> i <= capacity
      invariant !ok ==> i == capacity + 1
      invariant fresh(d) && fresh(d.store)
    {
      ok := d.Add(pairs[i].0, pairs[i].1);
      i := i + 1;
    }
    assert pairs[..|pairs|] == pairs;
  }

  /** The dictionary every test loads its cache from: (1, 1), (2, 2), (3, 3) in a 3-slot array. */
  method LoadedCache() returns (clc: LruCache.ConcurrentLruCache<int, int>)
    ensures fresh(clc) && fresh(clc.keys) && fresh(clc.vals) && fresh(clc.prev) && fresh(clc.next)
    ensures clc.Valid() && clc.capacity == 3
    ensures clc.Entries() == [(3, 3), (2, 2), (1, 1)]
  {
    var pairs := [(1, 1), (2, 2), (3, 3)];
    var d, _ := Initialized(3, pairs);
    assert d.Items() == pairs;
    clc := d.MakeCache();
    LoadedInReverse();
  }

  /** Loading three pairs with distinct keys into a 3-slot cache lists them last first. */
  lemma LoadedInReverse()
    ensures Build([(1, 1), (2, 2), (3, 3)], 3) == [(3, 3), (2, 2), (1, 1)]
  {
    var ps := [(1, 1), (2, 2), (3, 3)];
    assert UniqueKeys(ps);
    BuildReverses(ps, 3);
    var r := Reversed(ps);
    assert r[0] == (3, 3) && r[1] == (2, 2) && r[2] == (1, 1);
  }

  /** Writing 3 := 0 into the loaded cache overwrites the head in place and evicts nothing. */
  lemma OverwriteHead(s: seq<(int, int)>)
    requires s == [(3, 3), (2, 2), (1, 1)]
    ensures Set(s, 3, 3, 0) == [(3, 0), (2, 2), (1, 1)]
    ensures Evicted(s, 3, 3) == None
  {
    assert Find(s, 3) == Some(0);
    SetOverwrites(s, 3, 3, 0, 0);
    assert s[0 := (3, 0)] == [(3, 0), (2, 2), (1, 1)];
    assert Promote([(3, 0), (2, 2), (1, 1)], 0) == [(3, 0)] + [] + [(2, 2), (1, 1)];
  }

  /** Writing the new key 4 into the loaded cache evicts its tail, (1, 1). */
  lemma WriteEvictsOne(s: seq<(int, int)>)
    requires s == [(3, 3), (2, 2), (1, 1)]
    ensures Set(s, 3, 4, 4) == [(4, 4), (3, 3), (2, 2)]
    ensures Evicted(s, 3, 4) == Some((1, 1))
  {
    assert !HasKey(s, 4);
    SetEvicts(s, 3, 4, 4);
    assert s[..2] == [(3, 3), (2, 2)];
  }

  /** Reading key 1 from the loaded cache returns 1 and moves (1, 1) to the head. */
  lemma ReadPromotesOne(s: seq<(int, int)>)
    requires s == [(3, 3), (2, 2), (1, 1)]
    ensures Get(s, 1) == (Some(1), [(1, 1), (3, 3), (2, 2)])
  {
    assert s[0].0 != s[2].0 && s[1].0 != s[2].0;
    assert Find(s, 1) == Some(2);
    assert Get(s, 1) == (Some(s[2].1), Promote(s, 2));
    assert s[..2] == [(3, 3), (2, 2)] && s[3..] == [];
    assert Promote(s, 2) == [s[2]] + s[..2] + s[3..] == [(1, 1), (3, 3), (2, 2)];
  }

  /** After that read, writing the new key 4 evicts the tail, (2, 2). */
  lemma WriteAfterReadEvictsTwo(s: seq<(int, int)>)
    requires s == [(1, 1), (3, 3), (2, 2)]
    ensures Set(s, 3, 4, 4) == [(4, 4), (1, 1), (3, 3)]
    ensures Evicted(s, 3, 4) == Some((2, 2))
  {
    assert !HasKey(s, 4);
    assert s[..2] == [(1, 1), (3, 3)];
  }

  /** The enumeration of an expected-value dictionary of three pairs. */
  method Expected(pairs: seq<(int, int)>) returns (expected: seq<(int, int)>)
    requires |pairs| == 3
    ensures expected == pairs
  {
    var d, _ := Initialized(3, pairs);
    expected := d.Items();
  }

  /** Loading (1, 1), (2, 2), (3, 3) enumerates them most recently used first. */
  method CacheHoldsCapacity() returns (actual: seq<(int, int)>, expected: seq<(int, int)>)
    ensures actual == expected == [(3, 3), (2, 2), (1, 1)]
  {
    var clc := LoadedCache();
    expected := Expected([(3, 3), (2, 2), (1, 1)]);
    actual := clc.TestingEnumerable();
  }

  /** Writing 3 := 0 replaces the value of key 3 in place; nothing is added or evicted. */
  method CacheOverwritesKey() returns (actual: seq<(int, int)>, expected: seq<(int, int)>, evicted: Option<(int, int)>)
    ensures actual == expected == [(3, 0), (2, 2), (1, 1)]
    ensures evicted == None
  {
    var clc := LoadedCache();
    OverwriteHead(clc.Entries());
    evicted := clc.Set(3, 0);
    expected := Expected([(3, 0), (2, 2), (1, 1)]);
    actual := clc.TestingEnumerable();
  }

  /** Writing a new key, 4, into the full cache evicts the least recently used entry, (1, 1). */
  method CacheEvictsNoRead() returns (actual: seq<(int, int)>, expected: seq<(int, int)>, evicted: Option<(int, int)>)
    ensures actual == expected == [(4, 4), (3, 3), (2, 2)]
    ensures evicted == Some((1, 1))
  {
    var clc := LoadedCache();
    WriteEvictsOne(clc.Entries());
    evicted := clc.Set(4, 4);
    expected := Expected([(4, 4), (3, 3), (2, 2)]);
    actual := clc.TestingEnumerable();
  }

  /**
    Reading key 1 makes it the most recently used, so writing the new key 4
    evicts (2, 2) instead.
   */
  method CacheEvictsWithRead() returns (actual: seq<(int, int)>, expected: seq<(int, int)>, oneVal: Option<int>, evicted: Option<(int, int)>)
    ensures oneVal == Some(1)
    ensures actual == expected == [(4, 4), (1, 1), (3, 3)]
    ensures evicted == Some((2, 2))
  {
    var clc := LoadedCache();
    ReadPromotesOne(clc.Entries());
    oneVal := clc.Get(1);
    WriteAfterReadEvictsTwo(clc.Entries());
    evicted := clc.Set(4, 4);
    expected := Expected([(4, 4), (1, 1), (3, 3)]);
    actual := clc.TestingEnumerable();
  }
}
