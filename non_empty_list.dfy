/**
 * Core/NonEmptyList.cs: a list that always holds at least one element,
 * stored as a head and a tail list, with the `IList` operations and a
 * struct enumerator.
 */
module NonEmptyLists {
  import opened Wrappers

  /** `List<T>.IndexOf`: the first position holding `item`, or -1. */
  function ListIndexOf<T(==)>(s: seq<T>, item: T): (i: int)
    ensures -1 <= i < |s|
    ensures i == -1 <==> item !in s
    ensures i >= 0 ==> s[i] == item && item !in s[..i]
  {
    if |s| == 0 then -1
    else if s[0] == item then 0
    else
      var j := ListIndexOf(s[1..], item);
      assert s[1..][..j + 1] == s[1..j + 2];
      if j == -1 then -1 else j + 1
  }

  class NonEmptyList<T(==)> {
    var head: T
    var tail: seq<T>

    /** The elements in list order: the head, then the tail. */
    function Items(): seq<T>
      reads this
    {
      [head] + tail
    }

    /** `NonEmptyList(head)`: a one-element list. */
    constructor (head: T)
      ensures Items() == [head]
    {
      this.head := head;
      this.tail := [];
    }

    /** `NonEmptyList(source)`: `First()` throws on an empty source; otherwise the list holds the source. */
    static method FromSource(source: seq<T>) returns (r: Result<NonEmptyList<T>>)
      ensures r.Err? <==> |source| == 0
      ensures r.Err? ==> r.error == InvalidOperation
      ensures r.Ok? ==> fresh(r.value) && r.value.Items() == source
    {
      if |source| == 0 {
        return Err(InvalidOperation);
      }
      var list := new NonEmptyList(source[0]);
      list.tail := source[1..];
      assert list.Items() == [source[0]] + source[1..] == source;
      return Ok(list);
    }

    /** `Count`: never below 1. */
    function Count(): (n: int)
      reads this
      ensures n == |Items()| && n >= 1
    {
      |tail| + 1
    }

    /** The indexer's getter: index 0 is the head, others go to the tail, which rejects them out of range. */
    function Get(index: int): (r: Result<T>)
      reads this
      ensures r.Ok? <==> 0 <= index < |Items()|
      ensures r.Ok? ==> r.value == Items()[index]
      ensures r.Err? ==> r.error == ArgumentOutOfRange
    {
      if index == 0 then Ok(head)
      else if 0 <= index - 1 < |tail| then Ok(tail[index - 1])
      else Err(ArgumentOutOfRange)
    }

    /** The indexer's setter. */
    method Set(index: int, value: T) returns (o: Outcome)
      modifies this
      ensures 0 <= index < |old(Items())| ==> o == Pass && Items() == old(Items())[index := value]
      ensures !(0 <= index < |old(Items())|) ==> o == Fail(ArgumentOutOfRange) && Items() == old(Items())
    {
      if index == 0 {
        head := value;
        o := Pass;
      } else if 0 <= index - 1 < |tail| {
        tail := tail[index - 1 := value];
        o := Pass;
      } else {
        o := Fail(ArgumentOutOfRange);
      }
    }

    /** `Add`: appends to the tail. */
    method Add(item: T)
      modifies this
      ensures Items() == old(Items()) + [item]
    {
      tail := tail + [item];
    }

    /** `Clear` is not supported: the list would become empty. */
    method Clear() returns (o: Outcome)
      ensures o == Fail(NotSupported)
    {
      o := Fail(NotSupported);
    }

    /** `Contains`: the head or any element of the tail. */
    function Contains(item: T): (b: bool)
      reads this
      ensures b <==> item in Items()
    {
      head == item || item in tail
    }

    /**
     * `IndexOf` as written: 0 for the head, else the tail's index plus one,
     * so a missing item gives `-1 + 1`, the head's index.
     */
    function IndexOf(item: T): (i: int)
      reads this
      ensures 0 <= i < |Items()|
      ensures item in Items() ==> Items()[i] == item && item !in Items()[..i]
      ensures item !in Items() ==> i == 0
    {
      if head == item then 0 else ListIndexOf(tail, item) + 1
    }

    /** `IndexOf` as the `IList` contract has it: -1 for a missing item. */
    function IndexOfOrMissing(item: T): (i: int)
      reads this
      ensures -1 <= i < |Items()|
      ensures i == -1 <==> item !in Items()
      ensures i >= 0 ==> Items()[i] == item && item !in Items()[..i]
    {
      if head == item then 0
      else
        var j := ListIndexOf(tail, item);
        assert Items()[1..] == tail;
        if j == -1 then -1 else j + 1
    }

    /** `Insert`: at 0 the old head moves into the tail; elsewhere the tail's `Insert` checks the position. */
    method Insert(index: int, item: T) returns (o: Outcome)
      modifies this
      ensures 0 <= index <= |old(Items())| ==> o == Pass && Items() == old(Items())[..index] + [item] + old(Items())[index..]
      ensures !(0 <= index <= |old(Items())|) ==> o == Fail(ArgumentOutOfRange) && Items() == old(Items())
    {
      if index == 0 {
        tail := [head] + tail;
        head := item;
        o := Pass;
      } else if 0 <= index - 1 <= |tail| {
        tail := tail[..index - 1] + [item] + tail[index - 1..];
        o := Pass;
      } else {
        o := Fail(ArgumentOutOfRange);
      }
    }

    /** `RemoveAt`: checks the index, refuses to remove the only element, and at 0 promotes the tail's first element. */
    method RemoveAt(index: int) returns (o: Outcome)
      modifies this
      ensures !(0 <= index < |old(Items())|) ==> o == Fail(ArgumentOutOfRange) && Items() == old(Items())
      ensures 0 <= index < |old(Items())| && |old(Items())| == 1 ==> o == Fail(NotSupported) && Items() == old(Items())
      ensures 0 <= index < |old(Items())| && |old(Items())| > 1 ==>
        o == Pass && Items() == old(Items())[..index] + old(Items())[index + 1..]
    {
      if !(0 <= index < |tail| + 1) {
        return Fail(ArgumentOutOfRange);
      }
      if |tail| == 0 {
        return Fail(NotSupported);
      }
      if index == 0 {
        head := tail[0];
        tail := tail[1..];
      } else {
        tail := tail[..index - 1] + tail[index..];
      }
      o := Pass;
    }

    /**
     * `Remove` as written: removes at `IndexOf(item)`, which is never -1, so a
     * missing item removes the head and reports success.
     */
    method Remove(item: T) returns (removed: bool, o: Outcome)
      modifies this
      ensures |old(Items())| == 1 ==> o == Fail(NotSupported) && Items() == old(Items())
      ensures |old(Items())| > 1 && item in old(Items()) ==>
        var k := old(IndexOf(item));
        o == Pass && removed && old(Items())[k] == item && item !in old(Items())[..k] &&
        Items() == old(Items())[..k] + old(Items())[k + 1..]
      ensures |old(Items())| > 1 && item !in old(Items()) ==> o == Pass && removed && Items() == old(Items())[1..]
    {
      var idx := IndexOf(item);
      removed := false;
      if idx >= 0 {
        o := RemoveAt(idx);
        removed := o == Pass;
      } else {
        o := Pass;
      }
    }

    /** `Remove` with the `IList` contract: a missing item leaves the list alone and reports `false`. */
    method RemoveOrMissing(item: T) returns (removed: bool, o: Outcome)
      modifies this
      ensures item !in old(Items()) ==> o == Pass && !removed && Items() == old(Items())
      ensures item in old(Items()) && |old(Items())| == 1 ==> o == Fail(NotSupported) && Items() == old(Items())
      ensures item in old(Items()) && |old(Items())| > 1 ==>
        var k := old(IndexOfOrMissing(item));
        o == Pass && removed && old(Items())[k] == item && item !in old(Items())[..k] &&
        Items() == old(Items())[..k] + old(Items())[k + 1..]
    {
      var idx := IndexOfOrMissing(item);
      if idx == -1 {
        removed, o := false, Pass;
      } else {
        o := RemoveAt(idx);
        removed := o == Pass;
      }
    }
  }

  /** A missing item is reported at the head's index: in [1, 2], `IndexOf(3)` is 0 though the head is 1. */
  lemma IndexOfMissingIsHead(list: NonEmptyList<int>)
    requires list.Items() == [1, 2]
    ensures list.IndexOf(3) == 0 && list.Items()[0] != 3
    ensures list.IndexOfOrMissing(3) == -1
  {
    assert 3 !in list.Items();
  }

  /** The struct enumerator: `index` counts the elements handed out; past the end it is `Count + 1`. */
  class Enumerator<T(==)> {
    const list: NonEmptyList<T>
    var index: int
    var current: Option<T>

    constructor (list: NonEmptyList<T>)
      ensures this.list == list && index == 0 && current == None
    {
      this.list := list;
      index := 0;
      current := None;
    }

    /** `MoveNext`: the unsigned comparison accepts exactly the indices `0..Count - 1`. */
    method MoveNext() returns (more: bool)
      modifies this
      ensures 0 <= old(index) < |list.Items()| ==>
        more && current == Some(list.Items()[old(index)]) && index == old(index) + 1
      ensures !(0 <= old(index) < |list.Items()|) ==> !more && current == None && index == |list.Items()| + 1
    {
      if 0 <= index < list.Count() {
        current := Some(list.Get(index).value);
        index := index + 1;
        more := true;
      } else {
        index := list.Count() + 1;
        current := None;
        more := false;
      }
    }

    /** The non-generic `Current`: before the first element and past the last it throws. */
    function CurrentObject(): (r: Result<Option<T>>)
      reads this, list
      ensures r.Err? <==> index == 0 || index == |list.Items()| + 1
      ensures r.Err? ==> r.error == IndexOutOfRange
    {
      if index == 0 || index == list.Count() + 1 then Err(IndexOutOfRange) else Ok(current)
    }

    method Reset()
      modifies this
      ensures index == 0 && current == None
    {
      index := 0;
      current := None;
    }
  }

  /** Enumerating with `MoveNext` until it fails hands out the elements in list order. */
  method Enumerate<T(==)>(list: NonEmptyList<T>) returns (r: seq<T>)
    ensures r == list.Items()
  {
    var e := new Enumerator(list);
    r := [];
    var more := e.MoveNext();
    while more
      invariant e.list == list
      invariant more ==> 1 <= e.index <= |list.Items()| && |r| == e.index - 1 && e.current == Some(list.Items()[e.index - 1])
      invariant !more ==> e.index == |list.Items()| + 1 && |r| == |list.Items()|
      invariant r == list.Items()[..|r|]
      decreases |list.Items()| + 1 - e.index
    {
      r := r + [e.current.value];
      more := e.MoveNext();
    }
  }

  /** The list [1, 2, 3, 4] of the removal test, built by `Add`. */
  method OneToFour() returns (list: NonEmptyList<int>)
    ensures fresh(list) && list.Items() == [1, 2, 3, 4]
  {
    list := new NonEmptyList(1);
    list.Add(2);
    assert list.Items() == [1, 2];
    list.Add(3);
    assert list.Items() == [1, 2, 3];
    list.Add(4);
  }

  /**
   * The removal test: [1, 2, 3, 4] loses 2, then its head, then its second
   * element, leaving [3]; `Clear` and removing the last element both throw.
   */
  method RemovalScenario() returns (counted: int, afterRemove: bool, items: seq<int>, cleared: Outcome, last: Outcome)
    ensures counted == 4 && !afterRemove && items == [3]
    ensures cleared == Fail(NotSupported) && last == Fail(NotSupported)
  {
    var list := OneToFour();
    counted := list.Count();
    assert list.IndexOf(2) == 1;
    assert [1, 2, 3, 4][..1] + [1, 2, 3, 4][2..] == [1, 3, 4];
    var _, _ := list.Remove(2);
    assert list.Items() == [1, 3, 4];
    afterRemove := list.Contains(2);
    var _ := list.RemoveAt(0);
    assert list.Items() == [3, 4];
    var _ := list.RemoveAt(1);
    assert list.Items() == [3];
    items := list.Items();
    cleared := list.Clear();
    last := list.RemoveAt(0);
  }
}
