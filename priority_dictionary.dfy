/**
 * `PriorityDictionary<TKey, TValue>`: a dictionary whose entry of least (or
 * greatest) value can be taken out cheaply.  It keeps three structures in
 * step: an interval heap of key/value pairs ordered by value, a table from
 * key to heap handle, and the plain key-to-value dictionary.
 */
module PriorityDictionaries {

  import opened Wrappers
  import opened IntervalHeaps

  /**
   * `KvpByValueComparer.Compare`: two entries compare as their values do
   * under the priority comparer; keys play no part.
   */
  function CompareByValue<K, V>(priority: V -> int, x: (K, V), y: (K, V)): (c: int)
    ensures c < 0 <==> priority(x.1) < priority(y.1)
    ensures c > 0 <==> priority(y.1) < priority(x.1)
  {
    if priority(x.1) < priority(y.1) then -1
    else if priority(y.1) < priority(x.1) then 1
    else 0
  }

  /** The heap's order: a key/value pair ranks as its value does. */
  function ByValue<K, V>(priority: V -> int): ((K, V)) -> int
  {
    (kv: (K, V)) => priority(kv.1)
  }

  /** A map whose values are pairwise distinct has as many values as keys. */
  lemma {:induction false} InjectiveCard<A, B>(m: map<A, B>)
    requires forall a1, a2 | a1 in m && a2 in m && m[a1] == m[a2] :: a1 == a2
    ensures |m.Values| == |m.Keys|
    decreases |m|
  {
    if m != map[] {
      var a :| a in m;
      var rest := m - {a};
      assert rest.Keys == m.Keys - {a};
      InjectiveCard(rest);
      assert m.Values == rest.Values + {m[a]} by {
        forall b | b in m.Values ensures b in rest.Values + {m[a]} {
          var a' :| a' in m && m[a'] == b;
          if a' != a { assert rest[a'] == b; }
        }
      }
      assert m[a] !in rest.Values;
    }
  }

  class PriorityDictionary<K(==), V> {
    /** `_heap`: key/value pairs ordered by the value's priority. */
    const heap: IntervalHeap<(K, V)>
    /** The value comparer, as a rank on values. */
    const priority: V -> int
    /** `_handles`: the heap handle of each key. */
    var handles: map<K, Handle>
    /** `_dict`: the value of each key. */
    var dict: map<K, V>

    /**
     * The three structures agree: the same keys in the handle table and the
     * dictionary, each key's handle holds exactly (key, value) in the heap,
     * and every heap item is the one its key's handle points at.
     */
    ghost predicate Valid()
      reads this, heap
    {
      && heap.Valid()
      && heap.rank == ByValue(priority)
      && handles.Keys == dict.Keys
      && (forall k | k in handles :: handles[k] in heap.items && heap.items[handles[k]] == (k, dict[k]))
      && (forall h | h in heap.items :: heap.items[h].0 in handles && handles[heap.items[h].0] == h)
    }

    /** The constructors: an empty dictionary over the given value order. */
    constructor (priority: V -> int)
      ensures Valid() && fresh(heap)
      ensures this.priority == priority && dict == map[] && handles == map[] && heap.items == map[]
    {
      this.priority := priority;
      heap := new IntervalHeap(ByValue(priority));
      handles := map[];
      dict := map[];
    }

    /** `Count`: the number of keys, which is also the size of the heap and of the handle table. */
    function Count(): (n: nat)
      reads this, heap
      requires Valid()
      ensures n == |dict| && n == |handles| && n == heap.Count()
    {
      assert heap.items.Keys == handles.Values by {
        forall h | h in heap.items ensures h in handles.Values {
          assert handles[heap.items[h].0] == h;
        }
      }
      InjectiveCard(handles);
      |dict|
    }

    /** Indexer get: the value of a key; `KeyNotFound` for a missing key. */
    function Get(key: K): (r: Result<V>)
      reads this
      ensures r.Ok? <==> key in dict
      ensures r.Ok? ==> r.value == dict[key]
      ensures r.Err? ==> r.error == KeyNotFound
    {
      if key in dict then Ok(dict[key]) else Err(KeyNotFound)
    }

    /** `PeekMin`: an entry of least value; `NoSuchItem` when empty. */
    method PeekMin() returns (r: Result<(K, V)>)
      requires Valid()
      ensures r.Err? <==> dict == map[]
      ensures r.Err? ==> r.error == NoSuchItem
      ensures r.Ok? ==> r.value.0 in dict && dict[r.value.0] == r.value.1
      ensures r.Ok? ==> forall k | k in dict :: priority(r.value.1) <= priority(dict[k])
    {
      if Count() == 0 {
        return Err(NoSuchItem);
      }
      var h, kv := heap.FindMin();
      forall k | k in dict ensures priority(kv.1) <= priority(dict[k]) {
        assert heap.items[handles[k]] == (k, dict[k]);
      }
      r := Ok(kv);
    }

    /** `PeekMax`: an entry of greatest value; `NoSuchItem` when empty. */
    method PeekMax() returns (r: Result<(K, V)>)
      requires Valid()
      ensures r.Err? <==> dict == map[]
      ensures r.Err? ==> r.error == NoSuchItem
      ensures r.Ok? ==> r.value.0 in dict && dict[r.value.0] == r.value.1
      ensures r.Ok? ==> forall k | k in dict :: priority(dict[k]) <= priority(r.value.1)
    {
      if Count() == 0 {
        return Err(NoSuchItem);
      }
      var h, kv := heap.FindMax();
      forall k | k in dict ensures priority(dict[k]) <= priority(kv.1) {
        assert heap.items[handles[k]] == (k, dict[k]);
      }
      r := Ok(kv);
    }

    /** `PopMin`: takes an entry of least value out of all three structures. */
    method PopMin() returns (r: Result<(K, V)>)
      requires Valid()
      modifies this, heap
      ensures Valid()
      ensures r.Err? <==> old(dict) == map[]
      ensures r.Err? ==> r.error == NoSuchItem && dict == old(dict)
      ensures r.Ok? ==> r.value.0 in old(dict) && old(dict)[r.value.0] == r.value.1
      ensures r.Ok? ==> forall k | k in old(dict) :: priority(r.value.1) <= priority(old(dict)[k])
      ensures r.Ok? ==> dict == old(dict) - {r.value.0} && handles == old(handles) - {r.value.0}
    {
      r := PeekMin();
      if r.Err? { return; }
      var key := r.value.0;
      var _ := heap.Delete(handles[key]);
      handles := handles - {key};
      dict := dict - {key};
    }

    /** `PopMax`: takes an entry of greatest value out of all three structures. */
    method PopMax() returns (r: Result<(K, V)>)
      requires Valid()
      modifies this, heap
      ensures Valid()
      ensures r.Err? <==> old(dict) == map[]
      ensures r.Err? ==> r.error == NoSuchItem && dict == old(dict)
      ensures r.Ok? ==> r.value.0 in old(dict) && old(dict)[r.value.0] == r.value.1
      ensures r.Ok? ==> forall k | k in old(dict) :: priority(old(dict)[k]) <= priority(r.value.1)
      ensures r.Ok? ==> dict == old(dict) - {r.value.0} && handles == old(handles) - {r.value.0}
    {
      r := PeekMax();
      if r.Err? { return; }
      var key := r.value.0;
      var _ := heap.Delete(handles[key]);
      handles := handles - {key};
      dict := dict - {key};
    }

    /**
     * `Add` as written: the pair goes into the heap first; only then does
     * the handle table reject a duplicate key, so a rejected Add leaves an
     * orphan pair in the heap and the three structures out of step.
     */
    method Add(key: K, value: V) returns (o: Outcome)
      requires Valid()
      modifies this, heap
      ensures o.Fail? <==> key in old(dict)
      ensures o.Pass? ==> Valid() && dict == old(dict)[key := value] && key !in old(handles)
      ensures o.Fail? ==> o.error == Argument && dict == old(dict) && handles == old(handles)
      ensures |heap.items| == |old(heap.items)| + 1
      ensures o.Fail? ==> !Valid()
    {
      var h := heap.Add((key, value));
      if key in handles {
        assert heap.items[h].0 in handles && handles[key] != h;
        return Fail(Argument);
      }
      handles := handles[key := h];
      dict := dict[key := value];
      o := Pass;
    }

    /**
     * `Add` as evidently intended: a duplicate key is rejected before the
     * heap is touched, so a rejected Add changes nothing.
     */
    method AddGuarded(key: K, value: V) returns (o: Outcome)
      requires Valid()
      modifies this, heap
      ensures Valid()
      ensures o.Fail? <==> key in old(dict)
      ensures o.Pass? ==> dict == old(dict)[key := value] && key !in old(handles)
      ensures o.Pass? ==> |heap.items| == |old(heap.items)| + 1
      ensures o.Fail? ==> o.error == Argument && dict == old(dict) && handles == old(handles) && heap.items == old(heap.items)
    {
      if key in handles {
        return Fail(Argument);
      }
      var h := heap.Add((key, value));
      handles := handles[key := h];
      dict := dict[key := value];
      o := Pass;
    }

    /**
     * Indexer set: an existing key gets the new value in the dictionary and
     * in the heap, under its old handle; a new key is added.
     */
    method Set(key: K, value: V)
      requires Valid()
      modifies this, heap
      ensures Valid()
      ensures dict == old(dict)[key := value]
      ensures key in old(handles) ==> handles == old(handles)
    {
      if key in handles {
        dict := dict[key := value];
        var _ := heap.Replace(handles[key], (key, value));
      } else {
        var o := Add(key, value);
        assert o.Pass?;
      }
    }

    /** `Remove(key)`: deletes the key everywhere; a missing key throws on the handle lookup. */
    method Remove(key: K) returns (r: Result<bool>)
      requires Valid()
      modifies this, heap
      ensures Valid()
      ensures r.Err? <==> key !in old(dict)
      ensures r.Err? ==> r.error == KeyNotFound && dict == old(dict)
      ensures r.Ok? ==> r.value && dict == old(dict) - {key} && handles == old(handles) - {key}
    {
      if key !in handles {
        return Err(KeyNotFound);
      }
      var _ := heap.Delete(handles[key]);
      handles := handles - {key};
      dict := dict - {key};
      r := Ok(true);
    }

    /** `Clear`: empties the heap one greatest item at a time, then both tables. */
    method Clear()
      requires Valid()
      modifies this, heap
      ensures Valid()
      ensures dict == map[] && handles == map[] && heap.items == map[]
    {
      while heap.Count() > 0
        invariant heap.Valid()
        decreases |heap.items|
      {
        var _, _ := heap.DeleteMax();
      }
      handles := map[];
      dict := map[];
    }
  }

  /**
   * Adding key 1 twice: the second `Add` throws, yet its pair stays in the
   * heap, which now holds two pairs while the dictionary holds one key; the
   * guarded `Add` keeps both at one.
   */
  method DuplicateAddScenario() returns (asWritten: Outcome, heapAsWritten: nat, dictAsWritten: nat,
                                         guarded: Outcome, heapGuarded: nat, dictGuarded: nat)
    ensures asWritten == Fail(Argument) && heapAsWritten == 2 && dictAsWritten == 1
    ensures guarded == Fail(Argument) && heapGuarded == 1 && dictGuarded == 1
  {
    var d := new PriorityDictionary<int, int>(v => v);
    var first := d.Add(1, 5);
    assert first.Pass? && d.dict == map[1 := 5];
    asWritten := d.Add(1, 7);
    heapAsWritten, dictAsWritten := |d.heap.items|, |d.dict|;
    var e := new PriorityDictionary<int, int>(v => v);
    var second := e.AddGuarded(1, 5);
    assert second.Pass? && e.dict == map[1 := 5];
    guarded := e.AddGuarded(1, 7);
    heapGuarded, dictGuarded := |e.heap.items|, |e.dict|;
  }
}
