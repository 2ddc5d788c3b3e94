/**
 Mutable arrays of strings and the edits made to them (darwinxref/cfutils.c,
 darwinxref/plugins/dependencies.c).
 */
module StringArrays {
  import opened TextOrder

  function NotIn(other: seq<string>, list: seq<string>): (r: seq<string>)
    ensures forall x :: x in r <==> x in other && x !in list
  {
    if other == [] then []
    else
      var rest := NotIn(other[..|other| - 1], list);
      var x := other[|other| - 1];
      assert other == other[..|other| - 1] + [x];
      if x in list then rest else rest + [x]
  }

  function FirstIndex(list: seq<string>, x: string): (i: nat)
    ensures i <= |list| && (i < |list| ==> list[i] == x)
    ensures forall j :: 0 <= j < i ==> list[j] != x
  {
    if list == [] || list[0] == x then 0 else 1 + FirstIndex(list[1..], x)
  }

  function RemoveFirst(list: seq<string>, x: string): seq<string> {
    var i := FirstIndex(list, x);
    if i < |list| then list[..i] + list[i + 1..] else list
  }

  function RemoveEach(list: seq<string>, items: seq<string>): seq<string> {
    if items == [] then list
    else RemoveFirst(RemoveEach(list, items[..|items| - 1]), items[|items| - 1])
  }

  /** A mutable array object of strings. */
  class StringArray {
    var items: seq<string>

    constructor (items: seq<string>)
      ensures this.items == items
    {
      this.items := items;
    }

    /** Appends what was not there at the beginning. */
    method AppendDistinct(other: StringArray)
      modifies this
      ensures items == old(items) + NotIn(old(other.items), old(items))
    {
      var count := |other.items|;
      var range := |items|;
      ghost var before, appended := items, other.items;
      for i := 0 to count
        invariant items == before + NotIn(appended[..i], before)
        invariant other.items == if other == this then items else appended
      {
        assert appended[..i + 1][..i] == appended[..i];
        assert items[..range] == before;
        var o := other.items[i];
        assert o == appended[i];
        if o !in items[..range] {
          items := items + [o];
        }
      }
      assert appended[..count] == appended;
    }

    /** Removes one occurrence of each item. */
    method Subtract(newdeps: StringArray)
      requires newdeps != this
      modifies this
      ensures items == RemoveEach(old(items), newdeps.items)
    {
      var count := |newdeps.items|;
      for i := 0 to count
        invariant items == RemoveEach(old(items), newdeps.items[..i])
      {
        assert newdeps.items[..i + 1][..i] == newdeps.items[..i];
        var item := newdeps.items[i];
        var idx := FirstIndex(items, item);
        if idx < |items| {
          items := items[..idx] + items[idx + 1..];
        }
      }
      assert newdeps.items[..count] == newdeps.items;
    }
  }

  // ------------------------------------------------------------- the meaning of the edits

  lemma RemoveFirstMeans(list: seq<string>, x: string)
    requires Distinct(list)
    ensures Distinct(RemoveFirst(list, x))
    ensures ToSet(RemoveFirst(list, x)) == ToSet(list) - {x}
  {
    var i := FirstIndex(list, x);
    if i < |list| {
      var shorter := list[..i] + list[i + 1..];
      assert list == list[..i] + [x] + list[i + 1..];
      assert forall j :: 0 <= j < |shorter| ==> shorter[j] == list[if j < i then j else j + 1];
      forall y | y in list && y != x
        ensures y in shorter
      {
        assert y in list[..i] || y in list[i + 1..];
      }
    }
  }

  lemma {:induction false} RemoveEachMeans(list: seq<string>, items: seq<string>)
    requires Distinct(list)
    ensures Distinct(RemoveEach(list, items))
    ensures ToSet(RemoveEach(list, items)) == ToSet(list) - ToSet(items)
  {
    if items == [] {
    } else {
      var fewer, x := items[..|items| - 1], items[|items| - 1];
      RemoveEachMeans(list, fewer);
      RemoveFirstMeans(RemoveEach(list, fewer), x);
      assert items == fewer + [x];
    }
  }

  lemma NotInLast(other: seq<string>, x: string, list: seq<string>)
    ensures NotIn(other + [x], list) == NotIn(other, list) + if x in list then [] else [x]
  {
    assert (other + [x])[..|other|] == other;
  }

  lemma NotInOne(x: string, list: seq<string>)
    ensures NotIn([x], list) == if x in list then [] else [x]
  {
    assert [x][..0] == [];
  }

  /** What is kept stays in its order, as often as it is there. */
  lemma {:induction false} NotInKeepsOrder(a: seq<string>, b: seq<string>, list: seq<string>)
    ensures NotIn(a + b, list) == NotIn(a, list) + NotIn(b, list)
  {
    if b == [] {
      assert a + b == a;
    } else {
      var fewer, x := b[..|b| - 1], b[|b| - 1];
      assert a + b == a + fewer + [x] && b == fewer + [x];
      NotInKeepsOrder(a, fewer, list);
      NotInLast(a + fewer, x, list);
      NotInLast(fewer, x, list);
    }
  }

  lemma {:induction false} NothingToLeaveOut(other: seq<string>, list: seq<string>)
    requires forall x :: x in other ==> x !in list
    ensures NotIn(other, list) == other
  {
    if other == [] {
    } else {
      NothingToLeaveOut(other[..|other| - 1], list);
      assert other == other[..|other| - 1] + [other[|other| - 1]];
    }
  }

  lemma {:induction false} LeaveOutOneMore(other: seq<string>, list: seq<string>, x: string)
    ensures NotIn(other, list + [x]) == NotIn(NotIn(other, list), [x])
  {
    if other == [] {
    } else {
      var fewer, last := other[..|other| - 1], other[|other| - 1];
      assert other == fewer + [last];
      LeaveOutOneMore(fewer, list, x);
      NotInLast(fewer, last, list);
      NotInLast(fewer, last, list + [x]);
      NotInLast(NotIn(fewer, list), last, [x]);
    }
  }

  lemma RemoveFirstLeavesOut(list: seq<string>, x: string)
    requires Distinct(list)
    ensures RemoveFirst(list, x) == NotIn(list, [x])
  {
    var i := FirstIndex(list, x);
    if i < |list| {
      assert list == list[..i] + [x] + list[i + 1..];
      NotInKeepsOrder(list[..i] + [x], list[i + 1..], [x]);
      NotInLast(list[..i], x, [x]);
      NothingToLeaveOut(list[..i], [x]);
      NothingToLeaveOut(list[i + 1..], [x]);
    } else {
      NothingToLeaveOut(list, [x]);
    }
  }

  /** Of equal items the first is removed, and nothing else moves. */
  lemma RemovesTheFirst(a: seq<string>, x: string, b: seq<string>)
    requires x !in a
    ensures RemoveFirst(a + [x] + b, x) == a + b
  {
    var list, i := a + [x] + b, FirstIndex(a + [x] + b, x);
    assert list[|a|] == x;
    assert forall j :: 0 <= j < |a| ==> list[j] == a[j] && a[j] in a;
    assert list[..|a|] == a && list[|a| + 1..] == b;
  }

  /** Removing items one by one from a list without repeats leaves the others as they are. */
  lemma {:induction false} RemoveEachLeavesOut(list: seq<string>, items: seq<string>)
    requires Distinct(list)
    ensures RemoveEach(list, items) == NotIn(list, items)
  {
    if items == [] {
      NothingToLeaveOut(list, []);
    } else {
      var fewer, x := items[..|items| - 1], items[|items| - 1];
      assert items == fewer + [x];
      RemoveEachMeans(list, fewer);
      RemoveEachLeavesOut(list, fewer);
      RemoveFirstLeavesOut(RemoveEach(list, fewer), x);
      LeaveOutOneMore(list, fewer, x);
    }
  }

  lemma {:induction false} NotInIsDistinct(other: seq<string>, list: seq<string>)
    requires Distinct(other)
    ensures Distinct(NotIn(other, list))
  {
    if other == [] {
    } else {
      var fewer, x := other[..|other| - 1], other[|other| - 1];
      NotInIsDistinct(fewer, list);
      assert forall i :: 0 <= i < |fewer| ==> fewer[i] == other[i];
      assert x !in fewer;
    }
  }

  lemma AppendMeans(list: seq<string>, other: seq<string>)
    requires Distinct(list) && Distinct(other)
    ensures Distinct(list + NotIn(other, list))
    ensures ToSet(list + NotIn(other, list)) == ToSet(list) + ToSet(other)
  {
    NotInIsDistinct(other, list);
    var added := NotIn(other, list);
    forall i, j | 0 <= i < |list| && 0 <= j < |added|
      ensures list[i] != added[j]
    {
      assert added[j] in added && list[i] in list;
    }
  }
}
