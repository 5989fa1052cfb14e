/**
  The recency list of the cache: an intrusive doubly linked list threaded
  through the slot arena by integer links (-1 ends the list). Stated on the
  link arrays as sequences, so that each relinking step of the cache is a
  lemma about sequence updates.
 */
module RecencyList {
  import LruSpec

  /** No slot is listed twice. */
  ghost predicate Distinct(o: seq<nat>)
  {
    forall i, j :: 0 <= i < j < |o| ==> o[i] != o[j]
  }

  /**
    prv and nxt link the slots of o, in the order of o, from hd to tl:
    the head has no predecessor, the tail no successor.
   */
  ghost predicate Linked(o: seq<nat>, prv: seq<int>, nxt: seq<int>, hd: int, tl: int)
  {
    && |prv| == |nxt|
    && (forall i :: 0 <= i < |o| ==> o[i] < |nxt|)
    && (if o == [] then hd == -1 && tl == -1
        else hd == o[0] && tl == o[|o| - 1] && prv[hd] == -1 && nxt[tl] == -1)
    && (forall i :: 0 <= i < |o| - 1 ==> nxt[o[i]] == o[i + 1] && prv[o[i + 1]] == o[i])
  }

  lemma PromoteDistinct(o: seq<nat>, p: nat)
    requires Distinct(o) && p < |o|
    ensures Distinct(LruSpec.Promote(o, p))
  {
    var o' := LruSpec.Promote(o, p);
    assert o' == [o[p]] + o[..p] + o[p + 1..];
    forall i, j | 0 <= i < j < |o|
      ensures o'[i] != o'[j]
    {
      // the positions in o that positions i and j of o' come from
      var oi := if i == 0 then p else if i <= p then i - 1 else i;
      var oj := if j <= p then j - 1 else j;
      assert o'[i] == o[oi] && o'[j] == o[oj] && oi != oj;
    }
  }

  /**
    After the slot at position p > 0 is unlinked and relinked in front of the
    head, positions i and i + 1 of the promoted list are linked.
   */
  lemma PromotedLinkAt(o: seq<nat>, prv: seq<int>, nxt: seq<int>, hd: int, tl: int, p: nat,
                       prv': seq<int>, nxt': seq<int>, i: nat)
    requires Distinct(o) && Linked(o, prv, nxt, hd, tl) && 0 < p < |o| && i + 1 < |o|
    requires nxt' == nxt[o[p - 1] := nxt[o[p]]][o[p] := hd]
    requires prv' == (if p + 1 == |o| then prv else prv[o[p + 1] := o[p - 1]])[o[p] := -1][hd := o[p]]
    ensures nxt'[LruSpec.Promote(o, p)[i]] == LruSpec.Promote(o, p)[i + 1]
    ensures prv'[LruSpec.Promote(o, p)[i + 1]] == LruSpec.Promote(o, p)[i]
  {
    LruSpec.PromoteIndex(o, p, i);
    LruSpec.PromoteIndex(o, p, i + 1);
    if i == 0 {
    } else if i < p {
      assert o[i - 1] != o[p - 1] && o[i - 1] != o[p];
      assert o[i] != o[0] && o[i] != o[p] && (p + 1 < |o| ==> o[i] != o[p + 1]);
    } else if i == p {
      assert nxt[o[p]] == o[p + 1];
      assert o[p + 1] != o[0] && o[p + 1] != o[p];
    } else {
      assert o[i] != o[p - 1] && o[i] != o[p];
      assert o[i + 1] != o[0] && o[i + 1] != o[p] && o[i + 1] != o[p + 1];
    }
  }

  /**
    Unlinking the slot at position p > 0 and relinking it in front of the
    head yields the list with that slot promoted.
   */
  lemma LinkedPromote(o: seq<nat>, prv: seq<int>, nxt: seq<int>, hd: int, tl: int, p: nat)
    requires Distinct(o) && Linked(o, prv, nxt, hd, tl) && 0 < p < |o|
    ensures prv[o[p]] == o[p - 1]
    ensures nxt[o[p]] == if p + 1 < |o| then o[p + 1] else -1
    ensures
      var s, pr, nx := o[p], o[p - 1], nxt[o[p]];
      var nxt' := nxt[pr := nx][s := hd];
      var prv' := (if nx == -1 then prv else prv[nx := pr])[s := -1][hd := s];
      && Distinct(LruSpec.Promote(o, p))
      && Linked(LruSpec.Promote(o, p), prv', nxt', s, if nx == -1 then pr else tl)
  {
    var s, pr, nx := o[p], o[p - 1], nxt[o[p]];
    var n := |o|;
    if p + 1 < n {
      assert nx == o[p + 1];
    } else {
      assert s == tl;
    }
    var nxt' := nxt[pr := nx][s := hd];
    var prv' := (if nx == -1 then prv else prv[nx := pr])[s := -1][hd := s];
    var o' := LruSpec.Promote(o, p);
    PromoteDistinct(o, p);
    assert prv' == (if p + 1 == n then prv else prv[o[p + 1] := o[p - 1]])[o[p] := -1][hd := o[p]];
    forall i | 0 <= i < n - 1
      ensures nxt'[o'[i]] == o'[i + 1] && prv'[o'[i + 1]] == o'[i]
    {
      PromotedLinkAt(o, prv, nxt, hd, tl, p, prv', nxt', i);
    }
    forall i | 0 <= i < n
      ensures o'[i] < |nxt'|
    {
      LruSpec.PromoteIndex(o, p, i);
    }
    LruSpec.PromoteIndex(o, p, n - 1);
    assert o'[n - 1] == if nx == -1 then pr else tl;
  }

  /** Linking a slot that is not in the list in front of the head. */
  lemma LinkedPush(o: seq<nat>, prv: seq<int>, nxt: seq<int>, hd: int, tl: int, f: nat)
    requires Distinct(o) && Linked(o, prv, nxt, hd, tl) && f < |nxt|
    requires forall i :: 0 <= i < |o| ==> o[i] != f
    ensures Distinct([f] + o)
    ensures
      var prv' := if hd == -1 then prv[f := -1] else prv[f := -1][hd := f];
      Linked([f] + o, prv', nxt[f := hd], f, if hd == -1 then f else tl)
  {
    var o' := [f] + o;
    var prv' := if hd == -1 then prv[f := -1] else prv[f := -1][hd := f];
    var nxt' := nxt[f := hd];
    assert forall i :: 1 <= i < |o'| ==> o'[i] == o[i - 1];
    forall i | 0 <= i < |o'| - 1
      ensures nxt'[o'[i]] == o'[i + 1] && prv'[o'[i + 1]] == o'[i]
    {
      if i > 0 {
        assert o[i] != hd;
      }
    }
  }

  /** Unlinking the tail: its predecessor becomes the tail. */
  lemma LinkedDropLast(o: seq<nat>, prv: seq<int>, nxt: seq<int>, hd: int, tl: int)
    requires Distinct(o) && Linked(o, prv, nxt, hd, tl) && |o| > 0
    ensures prv[tl] == if |o| > 1 then o[|o| - 2] else -1
    ensures Distinct(o[..|o| - 1])
    ensures forall i :: 0 <= i < |o| - 1 ==> o[i] != tl
    ensures
      var pr := prv[tl];
      Linked(o[..|o| - 1], prv, if pr == -1 then nxt else nxt[pr := -1], if pr == -1 then -1 else hd, pr)
  {
    var n := |o|;
    var o' := o[..n - 1];
    assert forall i :: 0 <= i < n - 1 ==> o'[i] == o[i];
    if n > 1 {
      var pr := o[n - 2];
      var nxt' := nxt[pr := -1];
      forall i | 0 <= i < n - 2
        ensures nxt'[o'[i]] == o'[i + 1] && prv[o'[i + 1]] == o'[i]
      {
        assert o[i] != pr;
      }
    }
  }

  /**
    The list of a cache holding n entries: it lists each of the occupied
    slots 0 .. n - 1 exactly once, linked in list order.
   */
  ghost predicate Listing(o: seq<nat>, n: nat, prv: seq<int>, nxt: seq<int>, hd: int, tl: int)
  {
    && |o| == n
    && (forall i :: 0 <= i < n ==> o[i] < n)
    && (forall x :: 0 <= x < n ==> x in o)
    && Distinct(o)
    && Linked(o, prv, nxt, hd, tl)
  }

  /** Promotion (see LinkedPromote) keeps the occupied slots listed. */
  lemma ListingPromote(o: seq<nat>, n: nat, prv: seq<int>, nxt: seq<int>, hd: int, tl: int, p: nat)
    requires Listing(o, n, prv, nxt, hd, tl) && 0 < p < n
    ensures prv[o[p]] == o[p - 1]
    ensures nxt[o[p]] == if p + 1 < n then o[p + 1] else -1
    ensures
      var s, pr, nx := o[p], o[p - 1], nxt[o[p]];
      var nxt' := nxt[pr := nx][s := hd];
      var prv' := (if nx == -1 then prv else prv[nx := pr])[s := -1][hd := s];
      Listing(LruSpec.Promote(o, p), n, prv', nxt', s, if nx == -1 then pr else tl)
  {
    LinkedPromote(o, prv, nxt, hd, tl, p);
    var o' := LruSpec.Promote(o, p);
    LruSpec.PromotePermutes(o, p);
    assert forall x :: x in o' <==> x in multiset(o');
    assert forall x :: x in o <==> x in multiset(o);
    forall i | 0 <= i < n
      ensures o'[i] < n
    {
      assert o'[i] in o;
    }
  }

  /** Listing the next unused slot, n, at the head of a list of n slots. */
  lemma ListingGrow(o: seq<nat>, n: nat, prv: seq<int>, nxt: seq<int>, hd: int, tl: int)
    requires Listing(o, n, prv, nxt, hd, tl) && n < |nxt|
    ensures
      var prv' := if hd == -1 then prv[n := -1] else prv[n := -1][hd := n];
      Listing([n] + o, n + 1, prv', nxt[n := hd], n, if hd == -1 then n else tl)
  {
    LinkedPush(o, prv, nxt, hd, tl, n);
    var o' := [n] + o;
    forall x | 0 <= x < n + 1
      ensures x in o'
    {
      if x < n {
        assert x in o;
      }
    }
  }

  /**
    Unlinking the tail slot tl and relinking it at the head: the list of a
    full cache after its tail has been evicted and its slot reused.
   */
  lemma ListingRecycle(o: seq<nat>, n: nat, prv: seq<int>, nxt: seq<int>, hd: int, tl: int)
    requires Listing(o, n, prv, nxt, hd, tl) && n > 0
    ensures prv[tl] == if n > 1 then o[n - 2] else -1
    ensures
      var pr := prv[tl];
      var nxt1 := if pr == -1 then nxt else nxt[pr := -1];
      var hd1 := if pr == -1 then -1 else hd;
      var prv2 := if hd1 == -1 then prv[tl := -1] else prv[tl := -1][hd1 := tl];
      Listing([tl] + o[..n - 1], n, prv2, nxt1[tl := hd1], tl, if hd1 == -1 then tl else pr)
  {
    LinkedDropLast(o, prv, nxt, hd, tl);
    var pr := prv[tl];
    var nxt1 := if pr == -1 then nxt else nxt[pr := -1];
    var hd1 := if pr == -1 then -1 else hd;
    LinkedPush(o[..n - 1], prv, nxt1, hd1, pr, tl);
    var o' := [tl] + o[..n - 1];
    forall x | 0 <= x < n
      ensures x in o'
    {
      assert x in o;
      var i :| 0 <= i < n && o[i] == x;
      if i < n - 1 {
        assert o'[i + 1] == x;
      }
    }
    forall i | 0 <= i < n
      ensures o'[i] < n
    {
      if i > 0 {
        assert o'[i] == o[i - 1];
      }
    }
  }
}
