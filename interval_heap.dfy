/**
 * The C5 `IntervalHeap<T>` that the search engines and the priority
 * dictionary build on, as an abstract priority multiset: every stored item
 * sits under an opaque handle that stays valid until the item leaves the
 * heap.  Items are ordered by an integer rank (the comparer of the caller).
 */
module IntervalHeaps {

  import opened Wrappers

  type Handle = nat

  /** Some key of `m` whose item has the least rank. */
  predicate IsMinHandle<T>(m: map<Handle, T>, rank: T -> int, h: Handle)
  {
    h in m && forall k | k in m :: rank(m[h]) <= rank(m[k])
  }

  /** Some key of `m` whose item has the greatest rank. */
  predicate IsMaxHandle<T>(m: map<Handle, T>, rank: T -> int, h: Handle)
  {
    h in m && forall k | k in m :: rank(m[k]) <= rank(m[h])
  }

  /** A non-empty heap always has a least and a greatest item. */
  lemma {:induction false} ExtremesExist<T>(m: map<Handle, T>, rank: T -> int)
    requires m != map[]
    ensures exists h :: IsMinHandle(m, rank, h)
    ensures exists h :: IsMaxHandle(m, rank, h)
    decreases |m|
  {
    var h0 :| h0 in m;
    var rest := m - {h0};
    assert forall k | k in m :: k == h0 || (k in rest && rest[k] == m[k]);
    if rest == map[] {
      assert IsMinHandle(m, rank, h0);
      assert IsMaxHandle(m, rank, h0);
    } else {
      assert |rest| < |m| by { assert rest.Keys == m.Keys - {h0}; }
      ExtremesExist(rest, rank);
      var lo :| IsMinHandle(rest, rank, lo);
      var hi :| IsMaxHandle(rest, rank, hi);
      var mn := if rank(m[h0]) <= rank(rest[lo]) then h0 else lo;
      var mx := if rank(rest[hi]) <= rank(m[h0]) then h0 else hi;
      assert IsMinHandle(m, rank, mn);
      assert IsMaxHandle(m, rank, mx);
    }
  }

  class IntervalHeap<T> {
    /** The priority of an item; smaller ranks come out of DeleteMin first. */
    const rank: T -> int
    /** The stored items, by handle. */
    var items: map<Handle, T>
    /** The next handle Add hands out; every live handle is below it. */
    var nextHandle: Handle

    ghost predicate Valid()
      reads this
    {
      forall h | h in items :: h < nextHandle
    }

    function Count(): (n: nat)
      reads this
      ensures n == 0 <==> items == map[]
    {
      |items|
    }

    constructor (rank: T -> int)
      ensures Valid() && this.rank == rank && items == map[]
    {
      this.rank := rank;
      items := map[];
      nextHandle := 0;
    }

    /** `Add(ref handle, x)`: stores x under a new handle. */
    method Add(x: T) returns (h: Handle)
      requires Valid()
      modifies this
      ensures Valid()
      ensures h !in old(items) && items == old(items)[h := x]
      ensures h == old(nextHandle) && nextHandle == h + 1
    {
      h := nextHandle;
      items := items[h := x];
      nextHandle := nextHandle + 1;
    }

    /** `AddAll`: stores each item under a new handle, in order. */
    method AddAll(xs: seq<T>) returns (handles: seq<Handle>)
      requires Valid()
      modifies this
      ensures Valid() && |handles| == |xs|
      ensures forall h | h in old(items) :: h in items && items[h] == old(items)[h]
      ensures forall k | 0 <= k < |handles| :: handles[k] !in old(items) && handles[k] in items && items[handles[k]] == xs[k]
      ensures forall i, j | 0 <= i < j < |handles| :: handles[i] != handles[j]
      ensures forall h | h in items :: h in old(items) || h in handles
    {
      handles := [];
      var k := 0;
      while k < |xs|
        invariant 0 <= k <= |xs| && |handles| == k
        invariant Valid() && old(nextHandle) <= nextHandle
        invariant forall h | h in old(items) :: h in items && items[h] == old(items)[h]
        invariant forall i | 0 <= i < k :: old(nextHandle) <= handles[i] < nextHandle
        invariant forall i | 0 <= i < k :: handles[i] in items && items[handles[i]] == xs[i]
        invariant forall i, j | 0 <= i < j < k :: handles[i] < handles[j]
        invariant forall h | h in items :: h in old(items) || h in handles
      {
        var h := Add(xs[k]);
        handles := handles + [h];
        k := k + 1;
      }
    }

    /** `FindMin`: an item of least rank; `NoSuchItem` on an empty heap. */
    method FindMin() returns (h: Handle, x: T)
      requires items != map[]
      ensures IsMinHandle(items, rank, h) && x == items[h]
    {
      ExtremesExist(items, rank);
      h :| IsMinHandle(items, rank, h);
      x := items[h];
    }

    /** `FindMax`: an item of greatest rank. */
    method FindMax() returns (h: Handle, x: T)
      requires items != map[]
      ensures IsMaxHandle(items, rank, h) && x == items[h]
    {
      ExtremesExist(items, rank);
      h :| IsMaxHandle(items, rank, h);
      x := items[h];
    }

    /** `DeleteMin`: removes and returns an item of least rank. */
    method DeleteMin() returns (h: Handle, x: T)
      requires Valid() && items != map[]
      modifies this
      ensures Valid() && nextHandle == old(nextHandle)
      ensures IsMinHandle(old(items), rank, h) && x == old(items)[h]
      ensures items == old(items) - {h}
    {
      h, x := FindMin();
      items := items - {h};
    }

    /** `DeleteMax`: removes and returns an item of greatest rank. */
    method DeleteMax() returns (h: Handle, x: T)
      requires Valid() && items != map[]
      modifies this
      ensures Valid() && nextHandle == old(nextHandle)
      ensures IsMaxHandle(old(items), rank, h) && x == old(items)[h]
      ensures items == old(items) - {h}
    {
      h, x := FindMax();
      items := items - {h};
    }

    /** `Find(handle, out x)`: whether the handle is live, and its item. */
    method Find(h: Handle) returns (found: bool, x: Option<T>)
      ensures found <==> h in items
      ensures x == if h in items then Some(items[h]) else None
    {
      found := h in items;
      x := if found then Some(items[h]) else None;
    }

    /** `Replace(handle, x)`: puts x in place of the item under a live handle. */
    method Replace(h: Handle, x: T) returns (old_x: T)
      requires Valid() && h in items
      modifies this
      ensures Valid() && nextHandle == old(nextHandle)
      ensures old_x == old(items)[h] && items == old(items)[h := x]
    {
      old_x := items[h];
      items := items[h := x];
    }

    /** `Delete(handle)`: removes the item under a live handle. */
    method Delete(h: Handle) returns (x: T)
      requires Valid() && h in items
      modifies this
      ensures Valid() && nextHandle == old(nextHandle)
      ensures x == old(items)[h] && items == old(items) - {h}
    {
      x := items[h];
      items := items - {h};
    }
  }
}
