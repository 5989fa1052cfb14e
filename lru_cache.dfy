/**
  A fixed-capacity least-recently-used cache over an arena of slots.

  Slot i holds keys[i] and vals[i] and the links prev[i] and next[i] of the
  recency list (head = most recently used, -1 = no slot). The key index maps
  each cached key to its slot. Slots are filled in order 0, 1, 2, ... until
  the cache is full; from then on a new key reuses the slot of the evicted
  tail, so the occupied slots are always 0 .. count - 1.

  The ghost sequence `order` lists the occupied slots from head to tail;
  Entries() is the abstract state of module LruSpec that every operation is
  proved against.
 */
module LruCache {
  import opened LruSpec
  import RecencyList

  /** The (key, value) pairs of the slots listed in o, in the order of o. */
  ghost function Project<K, V>(o: seq<nat>, ks: seq<K>, vs: seq<V>): (r: seq<(K, V)>)
    requires forall i :: 0 <= i < |o| ==> o[i] < |ks| && o[i] < |vs|
    ensures |r| == |o|
    ensures forall i :: 0 <= i < |o| ==> r[i] == (ks[o[i]], vs[o[i]])
  {
    seq(|o|, i requires 0 <= i < |o| => (ks[o[i]], vs[o[i]]))
  }

  /** Listing the slots in promoted order lists their entries in promoted order. */
  lemma ProjectPromote<K, V>(o: seq<nat>, ks: seq<K>, vs: seq<V>, p: nat)
    requires forall i :: 0 <= i < |o| ==> o[i] < |ks| && o[i] < |vs|
    requires p < |o|
    ensures forall i :: 0 <= i < |o| ==> Promote(o, p)[i] < |ks| && Promote(o, p)[i] < |vs|
    ensures Project(Promote(o, p), ks, vs) == Promote(Project(o, ks, vs), p)
  {
    var o', e := Promote(o, p), Project(o, ks, vs);
    forall i | 0 <= i < |o|
      ensures o'[i] < |ks| && o'[i] < |vs| && o'[i] == o[if i == 0 then p else if i <= p then i - 1 else i]
    {
      PromoteIndex(o, p, i);
    }
    forall i | 0 <= i < |o|
      ensures Promote(e, p)[i] == e[if i == 0 then p else if i <= p then i - 1 else i]
    {
      PromoteIndex(e, p, i);
    }
  }

  /** Changing the value of a slot listed once, at position p, changes only entry p. */
  lemma ProjectUpdate<K, V>(o: seq<nat>, ks: seq<K>, vs: seq<V>, p: nat, v: V)
    requires forall i :: 0 <= i < |o| ==> o[i] < |ks| && o[i] < |vs|
    requires RecencyList.Distinct(o) && p < |o|
    ensures Project(o, ks, vs[o[p] := v]) == Project(o, ks, vs)[p := (ks[o[p]], v)]
  {
  }

  /** Filling a slot not yet listed and listing it first adds its entry at the front. */
  lemma ProjectPush<K, V>(o: seq<nat>, ks: seq<K>, vs: seq<V>, f: nat, k: K, v: V)
    requires forall i :: 0 <= i < |o| ==> o[i] < |ks| && o[i] < |vs|
    requires f < |ks| && f < |vs|
    requires forall i :: 0 <= i < |o| ==> o[i] != f
    ensures Project([f] + o, ks[f := k], vs[f := v]) == [(k, v)] + Project(o, ks, vs)
  {
    assert forall i :: 1 <= i <= |o| ==> ([f] + o)[i] == o[i - 1];
  }

  /**
    The key index of a cache holding n entries: it maps the key of every
    occupied slot, and no other key, to that slot.
   */
  ghost predicate Indexed<K>(index: map<K, nat>, ks: seq<K>, n: nat)
  {
    && n <= |ks|
    && (forall k :: k in index ==> index[k] < n && ks[index[k]] == k)
    && (forall x :: 0 <= x < n ==> ks[x] in index && index[ks[x]] == x)
  }

  /** Storing a new key in the next unused slot. */
  lemma IndexedGrow<K>(index: map<K, nat>, ks: seq<K>, n: nat, k: K)
    requires Indexed(index, ks, n) && n < |ks| && k !in index
    ensures Indexed(index[k := n], ks[n := k], n + 1)
  {
  }

  /** Storing a new key in occupied slot t, whose key is dropped. */
  lemma IndexedRecycle<K>(index: map<K, nat>, ks: seq<K>, n: nat, t: nat, k: K)
    requires Indexed(index, ks, n) && t < n && k !in index
    ensures Indexed((index - {ks[t]})[k := t], ks[t := k], n)
  {
    var index' := (index - {ks[t]})[k := t];
    var ks' := ks[t := k];
    forall x | 0 <= x < n
      ensures ks'[x] in index' && index'[ks'[x]] == x
    {
      if x != t {
        assert index[ks[x]] == x && ks[x] != ks[t];
      }
    }
  }

  /**
    What the list and the key index together say about the entries: keys are
    unique, and a key is cached exactly when it is indexed, at the position
    of its slot.
   */
  lemma ProjectIndexed<K, V>(o: seq<nat>, n: nat, prv: seq<int>, nxt: seq<int>, hd: int, tl: int,
                             index: map<K, nat>, ks: seq<K>, vs: seq<V>)
    requires RecencyList.Listing(o, n, prv, nxt, hd, tl) && Indexed(index, ks, n) && n <= |vs|
    ensures UniqueKeys(Project(o, ks, vs))
    ensures forall k :: HasKey(Project(o, ks, vs), k) <==> k in index
    ensures forall k :: k in index ==> exists p :: 0 <= p < n && o[p] == index[k]
  {
    var e := Project(o, ks, vs);
    forall i, j | 0 <= i < j < n
      ensures e[i].0 != e[j].0
    {
      assert index[ks[o[i]]] == o[i] && index[ks[o[j]]] == o[j];
    }
    forall k | k in index
      ensures HasKey(e, k)
      ensures exists p :: 0 <= p < n && o[p] == index[k]
    {
      assert index[k] in o;
      var p :| 0 <= p < n && o[p] == index[k];
      assert e[p].0 == k;
    }
  }

  /**
    A cache of n entries with room left, after the new pair (k, v) is stored
    in the next unused slot, n, linked at the head: the resulting list, key
    index and entries.
   */
  lemma GrowState<K, V>(o: seq<nat>, n: nat, prv: seq<int>, nxt: seq<int>, hd: int, tl: int,
                        index: map<K, nat>, ks: seq<K>, vs: seq<V>, k: K, v: V)
    requires RecencyList.Listing(o, n, prv, nxt, hd, tl) && Indexed(index, ks, n)
    requires n < |ks| == |vs| == |nxt| && k !in index
    ensures
      var prv' := if hd == -1 then prv[n := -1] else prv[n := -1][hd := n];
      && RecencyList.Listing([n] + o, n + 1, prv', nxt[n := hd], n, if hd == -1 then n else tl)
      && Indexed(index[k := n], ks[n := k], n + 1)
      && Project([n] + o, ks[n := k], vs[n := v]) == [(k, v)] + Project(o, ks, vs)
  {
    RecencyList.ListingGrow(o, n, prv, nxt, hd, tl);
    IndexedGrow(index, ks, n, k);
    assert forall i :: 0 <= i < n ==> o[i] != n;
    ProjectPush(o, ks, vs, n, k, v);
  }

  /**
    A full cache whose tail slot tl is reused for the new pair (k, v), linked
    at the head: the resulting list, key index and entries.
   */
  lemma RecycleState<K, V>(o: seq<nat>, n: nat, prv: seq<int>, nxt: seq<int>, hd: int, tl: int,
                           index: map<K, nat>, ks: seq<K>, vs: seq<V>, k: K, v: V)
    requires RecencyList.Listing(o, n, prv, nxt, hd, tl) && Indexed(index, ks, n)
    requires 0 < n == |ks| == |vs| && k !in index
    ensures prv[tl] == if n > 1 then o[n - 2] else -1
    ensures Project(o, ks, vs)[n - 1] == (ks[tl], vs[tl])
    ensures
      var pr := prv[tl];
      var nxt1 := if pr == -1 then nxt else nxt[pr := -1];
      var hd1 := if pr == -1 then -1 else hd;
      var prv2 := if hd1 == -1 then prv[tl := -1] else prv[tl := -1][hd1 := tl];
      var o2 := [tl] + o[..n - 1];
      && RecencyList.Listing(o2, n, prv2, nxt1[tl := hd1], tl, if hd1 == -1 then tl else pr)
      && Indexed((index - {ks[tl]})[k := tl], ks[tl := k], n)
      && Project(o2, ks[tl := k], vs[tl := v]) == [(k, v)] + Project(o, ks, vs)[..n - 1]
  {
    RecencyList.ListingRecycle(o, n, prv, nxt, hd, tl);
    IndexedRecycle(index, ks, n, tl, k);
    assert forall i :: 0 <= i < n - 1 ==> o[..n - 1][i] == o[i] != tl;
    ProjectPush(o[..n - 1], ks, vs, tl, k, v);
    assert Project(o[..n - 1], ks, vs) == Project(o, ks, vs)[..n - 1];
  }

  /** A read hit on the entry at position p returns its value and lists its slot first. */
  lemma GetHit<K, V>(o: seq<nat>, ks: seq<K>, vs: seq<V>, p: nat, k: K)
    requires forall i :: 0 <= i < |o| ==> o[i] < |ks| && o[i] < |vs|
    requires UniqueKeys(Project(o, ks, vs)) && p < |o| && ks[o[p]] == k
    ensures forall i :: 0 <= i < |o| ==> Promote(o, p)[i] < |ks| && Promote(o, p)[i] < |vs|
    ensures LruSpec.Get(Project(o, ks, vs), k) == (Some(vs[o[p]]), Project(Promote(o, p), ks, vs))
  {
    var e := Project(o, ks, vs);
    FindUnique(e, p);
    ProjectPromote(o, ks, vs, p);
  }

  /** An empty cache: no slot listed, no key indexed. */
  lemma EmptyState<K>(prv: seq<int>, nxt: seq<int>, ks: seq<K>)
    requires |prv| == |nxt|
    ensures RecencyList.Listing([], 0, prv, nxt, -1, -1)
    ensures Indexed(map[], ks, 0)
  {
  }

  class ConcurrentLruCache<K(==), V(==)> {
    const capacity: nat
    const keys: array<K>
    const vals: array<V>
    const prev: array<int>
    const next: array<int>
    var head: int
    var tail: int
    var count: nat
    var index: map<K, nat>
    ghost var order: seq<nat>

    ghost predicate Valid()
      reads this, keys, vals, prev, next
    {
      && keys.Length == capacity && vals.Length == capacity
      && prev.Length == capacity && next.Length == capacity
      // four distinct arrays
      && keys as object != vals && keys as object != prev && keys as object != next
      && vals as object != prev && vals as object != next && prev != next
      && count <= capacity
      && RecencyList.Listing(order, count, prev[..], next[..], head, tail)
      && Indexed(index, keys[..], count)
    }

    /** The cached entries, most recently used first. */
    ghost function Entries(): seq<(K, V)>
      reads this, keys, vals, prev, next
      requires Valid()
    {
      Project(order, keys[..], vals[..])
    }

    /** The abstract state is a valid cache state, and the key index knows exactly its keys. */
    lemma EntriesFit()
      requires Valid()
      ensures Fits(Entries(), capacity)
      ensures forall k :: HasKey(Entries(), k) <==> k in index
      ensures forall k :: k in index ==> exists p :: 0 <= p < count && order[p] == index[k]
    {
      ProjectIndexed(order, count, prev[..], next[..], head, tail, index, keys[..], vals[..]);
    }

    /** A cached key: its slot is listed, and the entries have unique keys. */
    lemma Cached(k: K)
      requires Valid() && k in index
      ensures UniqueKeys(Entries())
      ensures exists p :: 0 <= p < count && order[p] == index[k]
    {
      ProjectIndexed(order, count, prev[..], next[..], head, tail, index, keys[..], vals[..]);
    }

    /** A key that is not indexed is not cached. */
    lemma NotCached(k: K)
      requires Valid() && k !in index
      ensures !HasKey(Entries(), k)
    {
      ProjectIndexed(order, count, prev[..], next[..], head, tail, index, keys[..], vals[..]);
    }

    /**
      Builds a cache whose capacity is the number of pairs given, loaded by
      writing the pairs in order: the last pair ends up most recently used.
     */
    constructor (pairs: seq<(K, V)>)
      ensures Valid() && capacity == |pairs|
      ensures Entries() == Build(pairs, |pairs|)
      ensures fresh(keys) && fresh(vals) && fresh(prev) && fresh(next)
    {
      var n := |pairs|;
      capacity := n;
      keys := new K[n](i requires 0 <= i < n => pairs[i].0);
      vals := new V[n](i requires 0 <= i < n => pairs[i].1);
      prev := new int[n](_ => -1);
      next := new int[n](_ => -1);
      head, tail, count, index := -1, -1, 0, map[];
      order := [];
      new;
      EmptyState(prev[..], next[..], keys[..]);
      assert Entries() == [] == Build(pairs[..0], n);
      var i := 0;
      while i < n
        invariant 0 <= i <= n
        invariant Valid() && Entries() == Build(pairs[..i], n)
      {
        BuildStep(pairs, n, i);
        var _ := Set(pairs[i].0, pairs[i].1);
        i := i + 1;
      }
      assert pairs[..n] == pairs;
    }

    /** Unlinks the slot at position p of the list and relinks it at the head. */
    method MoveToTop(x: nat, ghost p: nat)
      requires Valid() && p < count && order[p] == x
      modifies this`head, this`tail, this`order, prev, next
      ensures Valid()
      ensures order == Promote(old(order), p)
      ensures keys[..] == old(keys[..]) && vals[..] == old(vals[..])
    {
      if x != head {
        ghost var prv, nxt := prev[..], next[..];
        RecencyList.ListingPromote(order, count, prv, nxt, head, tail, p);
        RelinkFirst(x);
        order := Promote(order, p);
      } else {
        assert p == 0 && Promote(order, 0) == order;
      }
    }

    /** Unlinks slot x, which is not the head, and links it in front of the head (the list part of a promotion). */
    method RelinkFirst(x: nat)
      requires x < prev.Length == next.Length && prev != next
      requires 0 <= head < prev.Length && x != head
      requires 0 <= prev[x] < next.Length && -1 <= next[x] < prev.Length
      modifies this`head, this`tail, prev, next
      ensures var pr, nx := old(prev[x]), old(next[x]);
        && head == x && tail == (if nx == -1 then pr else old(tail))
        && next[..] == old(next[..])[pr := nx][x := old(head)]
        && prev[..] == (if nx == -1 then old(prev[..]) else old(prev[..])[nx := pr])[x := -1][old(head) := x]
    {
      var pr, nx := prev[x], next[x];
      next[pr] := nx;
      if nx == -1 {
        tail := pr;
      } else {
        prev[nx] := pr;
      }
      prev[x] := -1;
      next[x] := head;
      prev[head] := x;
      head := x;
    }

    /**
      The indexer's getter: on a hit returns the value and makes the entry
      the most recently used; on a miss (where the indexer throws
      KeyNotFoundException) returns None and changes nothing.
     */
    method Get(key: K) returns (r: Option<V>)
      requires Valid()
      modifies this`head, this`tail, this`order, prev, next
      ensures Valid()
      ensures (r, Entries()) == LruSpec.Get(old(Entries()), key)
    {
      if key in index {
        Cached(key);
        var x := index[key];
        ghost var p :| 0 <= p < count && order[p] == x;
        GetHit(order, keys[..], vals[..], p, key);
        MoveToTop(x, p);
        r := Some(vals[x]);
      } else {
        NotCached(key);
        r := None;
      }
    }

    /**
      The indexer's setter; returns the entry it evicted, if any. An existing
      key is overwritten and becomes the most recently used; a new key is
      linked at the head, in the next unused slot while there is room and
      otherwise in the slot of the evicted tail.
     */
    method Set(key: K, value: V) returns (evicted: Option<(K, V)>)
      requires Valid()
      modifies this, keys, vals, prev, next
      ensures Valid()
      ensures Entries() == LruSpec.Set(old(Entries()), capacity, key, value)
      ensures evicted == Evicted(old(Entries()), capacity, key)
    {
      EntriesFit();
      ghost var before := Entries();
      if key in index {
        var x := index[key];
        ghost var p :| 0 <= p < count && order[p] == x;
        FindUnique(before, p);
        SetOverwrites(before, capacity, key, value, p);
        Overwrite(x, p, value);
        evicted := None;
      } else if count < capacity {
        SetInserts(before, capacity, key, value);
        InsertFresh(key, value);
        evicted := None;
      } else if capacity == 0 {
        evicted := None;
      } else {
        SetEvicts(before, capacity, key, value);
        var e := Recycle(key, value);
        evicted := Some(e);
      }
    }

    /** Overwrites the value of the entry at position p, in slot x, and promotes it. */
    method Overwrite(x: nat, ghost p: nat, value: V)
      requires Valid() && p < count && order[p] == x
      modifies this`head, this`tail, this`order, vals, prev, next
      ensures Valid()
      ensures |old(Entries())| == count && p < count
      ensures Entries() == Promote(old(Entries())[p := (old(Entries())[p].0, value)], p)
    {
      ghost var o, ks, vs := order, keys[..], vals[..];
      ghost var before := Entries();
      vals[x] := value;
      assert vals[..] == vs[x := value];
      ProjectUpdate(o, ks, vs, p, value);
      ProjectPromote(o, ks, vs[x := value], p);
      MoveToTop(x, p);
      assert keys[..] == ks && vals[..] == vs[x := value];
    }

    /** Stores a new key in the next unused slot and links it at the head. */
    method InsertFresh(key: K, value: V)
      requires Valid() && key !in index && count < capacity
      modifies this, keys, vals, prev, next
      ensures Valid()
      ensures Entries() == [(key, value)] + old(Entries())
    {
      var x := count;
      ghost var o, ks, vs := order, keys[..], vals[..];
      GrowState(o, x, prev[..], next[..], head, tail, index, ks, vs, key, value);
      keys[x] := key;
      vals[x] := value;
      LinkFirst(x);
      order := [x] + o;
      count := count + 1;
      index := index[key := x];
      assert keys[..] == ks[x := key] && vals[..] == vs[x := value];
    }

    /**
      Evicts the tail of a full cache and returns its entry; its slot then
      holds the new key, linked at the head.
     */
    method Recycle(key: K, value: V) returns (evicted: (K, V))
      requires Valid() && key !in index && 0 < count == capacity
      modifies this, keys, vals, prev, next
      ensures Valid()
      ensures |old(Entries())| == count
      ensures evicted == old(Entries())[count - 1]
      ensures Entries() == [(key, value)] + old(Entries())[..count - 1]
    {
      var t := tail;
      ghost var o, ks, vs, prv, nxt, hd := order, keys[..], vals[..], prev[..], next[..], head;
      RecycleState(o, count, prv, nxt, hd, t, index, ks, vs, key, value);
      evicted := (keys[t], vals[t]);
      index := (index - {keys[t]})[key := t];
      ReuseTail(key, value);
      order := [t] + o[..count - 1];
    }

    /**
      Unlinks the tail slot, stores (key, value) in it and links it at the
      head (the slot part of an eviction).
     */
    method ReuseTail(key: K, value: V)
      requires keys.Length == vals.Length == prev.Length == next.Length
      requires keys as object != vals && keys as object != prev && keys as object != next
      requires vals as object != prev && vals as object != next && prev != next
      requires 0 <= tail < prev.Length && -1 <= prev[tail] < prev.Length && -1 <= head < prev.Length
      modifies this`head, this`tail, keys, vals, prev, next
      ensures
        var t, pr := old(tail), old(prev[tail]);
        var hd1 := if pr == -1 then -1 else old(head);
        && keys[..] == old(keys[..])[t := key] && vals[..] == old(vals[..])[t := value]
        && next[..] == (if pr == -1 then old(next[..]) else old(next[..])[pr := -1])[t := hd1]
        && prev[..] == (if hd1 == -1 then old(prev[..])[t := -1] else old(prev[..])[t := -1][hd1 := t])
        && head == t && tail == (if hd1 == -1 then t else pr)
    {
      var t := tail;
      UnlinkLast();
      keys[t] := key;
      vals[t] := value;
      LinkFirst(t);
    }

    /** Links slot x in front of the head (the list part of an insertion). */
    method LinkFirst(x: nat)
      requires x < prev.Length == next.Length && prev != next
      requires -1 <= head < prev.Length
      modifies this`head, this`tail, prev, next
      ensures head == x && tail == if old(head) == -1 then x else old(tail)
      ensures next[..] == old(next[..])[x := old(head)]
      ensures prev[..] == if old(head) == -1 then old(prev[..])[x := -1] else old(prev[..])[x := -1][old(head) := x]
    {
      next[x] := head;
      prev[x] := -1;
      if head != -1 {
        prev[head] := x;
      } else {
        tail := x;
      }
      head := x;
    }

    /** Unlinks the tail slot; its predecessor becomes the tail (the list part of an eviction). */
    method UnlinkLast()
      requires 0 <= tail < prev.Length == next.Length && prev != next
      requires -1 <= prev[tail] < next.Length
      modifies this`head, this`tail, next
      ensures var pr := old(prev[tail]);
        && tail == pr
        && head == (if pr == -1 then -1 else old(head))
        && next[..] == if pr == -1 then old(next[..]) else old(next[..])[pr := -1]
    {
      var pr := prev[tail];
      if pr == -1 {
        head := -1;
      } else {
        next[pr] := -1;
      }
      tail := pr;
    }

    /** The diagnostic enumeration: walks the list from head to tail. */
    method TestingEnumerable() returns (r: seq<(K, V)>)
      requires Valid()
      ensures r == Entries()
    {
      r := [];
      var cur := head;
      var i := 0;
      while cur != -1
        invariant 0 <= i <= count
        invariant cur == if i < count then order[i] else -1
        invariant r == Entries()[..i]
        decreases count - i
      {
        r := r + [(keys[cur], vals[cur])];
        cur := next[cur];
        i := i + 1;
      }
    }
  }
}
