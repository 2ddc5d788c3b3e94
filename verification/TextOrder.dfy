/**
 The order of text: character by character, a prefix first.  It is the order of strcmp, of
 CFStringCompare without options, and of ORDER BY on a TEXT column.
 */
module TextOrder {
  predicate Leq(a: string, b: string) {
    a == [] || (b != [] && (a[0] < b[0] || (a[0] == b[0] && Leq(a[1..], b[1..]))))
  }

  predicate Less(a: string, b: string) {
    Leq(a, b) && a != b
  }

  lemma {:induction false} LeqTotal(a: string, b: string)
    ensures Leq(a, b) || Leq(b, a)
  {
    if a == [] || b == [] || a[0] != b[0] {
    } else {
      LeqTotal(a[1..], b[1..]);
    }
  }

  lemma {:induction false} LeqAntisymmetric(a: string, b: string)
    requires Leq(a, b) && Leq(b, a)
    ensures a == b
  {
    if a == [] || b == [] {
    } else {
      LeqAntisymmetric(a[1..], b[1..]);
      assert a == [a[0]] + a[1..] && b == [b[0]] + b[1..];
    }
  }

  lemma {:induction false} LeqTransitive(a: string, b: string, c: string)
    requires Leq(a, b) && Leq(b, c)
    ensures Leq(a, c)
  {
    if a == [] || a[0] != b[0] || b[0] != c[0] {
    } else {
      LeqTransitive(a[1..], b[1..], c[1..]);
    }
  }

  lemma {:induction false} PrefixIsLeq(a: string, b: string)
    requires a <= b
    ensures Leq(a, b)
  {
    if a == [] {
    } else {
      PrefixIsLeq(a[1..], b[1..]);
    }
  }

  ghost predicate SortedBy<T(!new)>(list: seq<T>, text: T -> string) {
    forall i, j :: 0 <= i < j < |list| ==> Leq(text(list[i]), text(list[j]))
  }

  ghost predicate Distinct<T(!new)>(list: seq<T>) {
    forall i, j :: 0 <= i < j < |list| ==> list[i] != list[j]
  }

  function ToSet<T(!new)>(list: seq<T>): set<T> {
    set x | x in list
  }

  /** A list without repeats, inside a set, is no longer than the set is large. */
  lemma {:induction false} DistinctFits<T(!new)>(list: seq<T>, s: set<T>)
    requires Distinct(list)
    requires forall i :: 0 <= i < |list| ==> list[i] in s
    ensures |list| <= |s|
  {
    if list == [] {
    } else {
      var rest := list[1..];
      forall i | 0 <= i < |rest|
        ensures rest[i] in s - {list[0]}
      {
        assert rest[i] == list[i + 1];
      }
      DistinctFits(rest, s - {list[0]});
    }
  }

  ghost predicate IsPlace<T(!new)>(list: seq<T>, i: nat, x: T, text: T -> string) {
    && i <= |list|
    && (forall j :: 0 <= j < i ==> Leq(text(list[j]), text(x)))
    && (forall j :: i <= j < |list| ==> Leq(text(x), text(list[j])))
  }

  /** Where the next item goes in a sorted list. */
  method FindPlace<T(!new)>(list: seq<T>, item: T, text: T -> string) returns (i: nat)
    requires SortedBy(list, text)
    ensures IsPlace(list, i, item, text)
  {
    i := 0;
    while i < |list| && Leq(text(list[i]), text(item))
      invariant i <= |list|
      invariant forall j :: 0 <= j < i ==> Leq(text(list[j]), text(item))
    {
      i := i + 1;
    }
    if i < |list| {
      LeqTotal(text(list[i]), text(item));
      forall j | i <= j < |list|
        ensures Leq(text(item), text(list[j]))
      {
        if i < j {
          LeqTransitive(text(item), text(list[i]), text(list[j]));
        }
      }
    }
  }

  function Insert<T>(list: seq<T>, i: nat, x: T): (longer: seq<T>)
    requires i <= |list|
    ensures |longer| == |list| + 1 && longer[i] == x
    ensures forall j :: 0 <= j < i ==> longer[j] == list[j]
    ensures forall j :: i < j <= |list| ==> longer[j] == list[j - 1]
  {
    list[..i] + [x] + list[i..]
  }

  lemma InsertedMembers<T(!new)>(list: seq<T>, i: nat, x: T, y: T)
    requires i <= |list|
    ensures y in Insert(list, i, x) <==> y in list || y == x
  {
    assert list == list[..i] + list[i..];
  }

  lemma InsertedDistinct<T(!new)>(list: seq<T>, i: nat, x: T)
    requires i <= |list| && x !in list && Distinct(list)
    ensures Distinct(Insert(list, i, x))
  {
    var longer := Insert(list, i, x);
    forall j, k | 0 <= j < k < |longer|
      ensures longer[j] != longer[k]
    {
      if j == i {
        assert longer[k] == list[k - 1];
      } else if k == i {
        assert longer[j] == list[j];
      } else {
        assert list[if j < i then j else j - 1] != list[if k < i then k else k - 1];
      }
    }
  }

  lemma InsertedSorted<T(!new)>(list: seq<T>, i: nat, x: T, text: T -> string)
    requires SortedBy(list, text) && IsPlace(list, i, x, text)
    ensures SortedBy(Insert(list, i, x), text)
  {
    var longer := Insert(list, i, x);
    forall j, k | 0 <= j < k < |longer|
      ensures Leq(text(longer[j]), text(longer[k]))
    {
      if j == i {
        assert longer[k] == list[k - 1];
      } else if k == i {
        assert longer[j] == list[j];
      } else {
        var m, n := if j < i then j else j - 1, if k < i then k else k - 1;
        assert longer[j] == list[m] && longer[k] == list[n] && m < n;
      }
    }
  }

  lemma InsertedCounts<T>(list: seq<T>, i: nat, x: T)
    requires i <= |list|
    ensures multiset(Insert(list, i, x)) == multiset(list) + multiset{x}
  {
    assert list == list[..i] + list[i..];
  }

  /** ORDER BY: the items in ascending order of their text. */
  method Sort<T(!new,==)>(items: set<T>, text: T -> string) returns (list: seq<T>)
    ensures SortedBy(list, text) && Distinct(list)
    ensures forall x :: x in list <==> x in items
  {
    list := [];
    var rest := items;
    while rest != {}
      invariant rest <= items
      invariant SortedBy(list, text) && Distinct(list)
      invariant forall x :: x in list <==> x in items - rest
      decreases rest
    {
      var x :| x in rest;
      assert x !in list;
      rest := rest - {x};
      var i := FindPlace(list, x, text);
      InsertedDistinct(list, i, x);
      InsertedSorted(list, i, x, text);
      forall y
        ensures y in Insert(list, i, x) <==> y in list || y == x
      {
        InsertedMembers(list, i, x, y);
      }
      list := Insert(list, i, x);
    }
  }

  lemma BothEmptyOrNeither(a: seq<string>, b: seq<string>)
    requires forall x :: x in a <==> x in b
    ensures a == [] <==> b == []
    ensures a != [] ==> a[0] in b && b[0] in a
  {
    if a != [] {
      assert a[0] in a;
    }
    if b != [] {
      assert b[0] in b;
    }
  }

  lemma SameFirst(a: seq<string>, b: seq<string>)
    requires SortedBy(a, x => x) && SortedBy(b, x => x) && a != [] && b != []
    requires a[0] in b && b[0] in a
    ensures a[0] == b[0]
  {
    var i :| 0 <= i < |a| && a[i] == b[0];
    var j :| 0 <= j < |b| && b[j] == a[0];
    if i > 0 && j > 0 {
      assert Leq(a[0], a[i]) && Leq(b[0], b[j]);
      LeqAntisymmetric(a[0], b[0]);
    }
  }

  lemma InRest(a: seq<string>, x: string)
    requires a != [] && Distinct(a)
    ensures x in a[1..] <==> x in a && x != a[0]
  {
    assert a == [a[0]] + a[1..];
    if x in a[1..] {
      var i :| 0 <= i < |a[1..]| && a[1..][i] == x;
      assert a[i + 1] == x;
    }
  }

  /** There is only one way to sort a set of texts. */
  lemma {:induction false} SortedOnce(a: seq<string>, b: seq<string>)
    requires SortedBy(a, x => x) && Distinct(a) && SortedBy(b, x => x) && Distinct(b)
    requires forall x :: x in a <==> x in b
    ensures a == b
    decreases a
  {
    BothEmptyOrNeither(a, b);
    if a == [] {
    } else {
      SameFirst(a, b);
      forall x
        ensures x in a[1..] <==> x in b[1..]
      {
        InRest(a, x);
        InRest(b, x);
      }
      SortedOnce(a[1..], b[1..]);
      assert a == [a[0]] + a[1..] && b == [b[0]] + b[1..];
    }
  }

  ghost predicate IsSorting(list: seq<string>, items: set<string>) {
    && SortedBy(list, x => x) && Distinct(list)
    && forall x :: x in list <==> x in items
  }

  lemma InsertedIsSorting(rest: seq<string>, i: nat, x: string, items: set<string>)
    requires x in items && IsSorting(rest, items - {x}) && IsPlace(rest, i, x, y => y)
    ensures IsSorting(Insert(rest, i, x), items)
  {
    InsertedDistinct(rest, i, x);
    InsertedSorted(rest, i, x, y => y);
    forall y
      ensures y in Insert(rest, i, x) <==> y in items
    {
      InsertedMembers(rest, i, x, y);
    }
  }

  lemma {:induction false} Place<T(!new)>(list: seq<T>, x: T, text: T -> string) returns (i: nat)
    requires SortedBy(list, text)
    ensures IsPlace(list, i, x, text)
  {
    if list == [] {
      i := 0;
    } else if Leq(text(x), text(list[0])) {
      i := 0;
      forall j | 0 <= j < |list|
        ensures Leq(text(x), text(list[j]))
      {
        if j > 0 {
          LeqTransitive(text(x), text(list[0]), text(list[j]));
        }
      }
    } else {
      LeqTotal(text(x), text(list[0]));
      i := Place(list[1..], x, text);
      i := i + 1;
    }
  }

  lemma {:induction false} CanSort(items: set<string>)
    ensures exists list :: IsSorting(list, items)
    decreases items
  {
    if items == {} {
      assert IsSorting([], items);
    } else {
      var x :| x in items;
      CanSort(items - {x});
      var rest :| IsSorting(rest, items - {x});
      var i := Place(rest, x, y => y);
      InsertedIsSorting(rest, i, x, items);
    }
  }

  /** The texts of a set in ascending order. */
  ghost function Sorted(items: set<string>): (list: seq<string>)
    ensures IsSorting(list, items)
  {
    CanSort(items);
    var list :| IsSorting(list, items);
    list
  }

  lemma SortedUnique(list: seq<string>, items: set<string>)
    requires IsSorting(list, items)
    ensures list == Sorted(items)
  {
    SortedOnce(list, Sorted(items));
  }

  lemma SameMembers<T(!new)>(a: seq<T>, b: seq<T>)
    requires multiset(a) == multiset(b)
    ensures |a| == |b| && forall x :: x in a <==> x in b
  {
    assert |multiset(a)| == |a| && |multiset(b)| == |b|;
    assert forall x :: x in a <==> x in multiset(a);
    assert forall x :: x in b <==> x in multiset(b);
  }

  lemma FirstOfSorting<T(!new)>(a: seq<T>, b: seq<T>, text: T -> string)
    requires SortedBy(a, text) && SortedBy(b, text) && a != [] && b != [] && a[0] in b && b[0] in a
    ensures text(a[0]) == text(b[0])
  {
    var i :| 0 <= i < |a| && a[i] == b[0];
    var j :| 0 <= j < |b| && b[j] == a[0];
    if i > 0 && j > 0 {
      assert Leq(text(a[0]), text(a[i])) && Leq(text(b[0]), text(b[j]));
      LeqAntisymmetric(text(a[0]), text(b[0]));
    }
  }

  ghost predicate TellsApart<T(!new)>(text: T -> string, list: seq<T>) {
    forall x, y :: x in list && y in list && text(x) == text(y) ==> x == y
  }

  lemma FirstAndRest<T(!new)>(list: seq<T>)
    requires list != []
    ensures list == [list[0]] + list[1..]
    ensures multiset(list[1..]) == multiset(list) - multiset{list[0]}
    ensures forall x :: x in list[1..] ==> x in list
  {
    assert list == [list[0]] + list[1..];
  }

  /** Two sortings of the same items agree where the texts tell the items apart. */
  lemma {:induction false} SameSorting<T(!new)>(a: seq<T>, b: seq<T>, text: T -> string)
    requires SortedBy(a, text) && SortedBy(b, text) && multiset(a) == multiset(b) && TellsApart(text, a)
    ensures a == b
    decreases |a|
  {
    SameMembers(a, b);
    if a == [] {
    } else {
      assert a[0] in a && b[0] in b;
      FirstOfSorting(a, b, text);
      FirstAndRest(a);
      FirstAndRest(b);
      SameSorting(a[1..], b[1..], text);
    }
  }

  // ------------------------------------------------------------- counting

  lemma {:induction false} CountsOnce<T(!new)>(list: seq<T>, x: T)
    requires Distinct(list)
    ensures multiset(list)[x] == if x in list then 1 else 0
  {
    if list == [] {
    } else {
      var fewer, last := list[..|list| - 1], list[|list| - 1];
      assert list == fewer + [last];
      CountsOnce(fewer, x);
    }
  }

  lemma RepeatCounts<T(!new)>(list: seq<T>, i: nat, j: nat)
    requires i < j < |list| && list[i] == list[j]
    ensures multiset(list)[list[i]] >= 2
  {
    var a, b := list[..j], list[j..];
    assert list == a + b && list[i] in a && b[0] == list[j];
    assert multiset(list) == multiset(a) + multiset(b);
    assert list[i] in multiset(a) && list[i] in multiset(b);
  }

  lemma SameMultiset<T(!new)>(a: seq<T>, b: seq<T>)
    requires Distinct(a) && Distinct(b) && forall x :: x in a <==> x in b
    ensures multiset(a) == multiset(b)
  {
    forall x
      ensures multiset(a)[x] == multiset(b)[x]
    {
      CountsOnce(a, x);
      CountsOnce(b, x);
    }
  }

  lemma DistinctMultiset<T(!new)>(a: seq<T>, b: seq<T>)
    requires multiset(a) == multiset(b) && Distinct(b)
    ensures Distinct(a)
  {
    forall i, j | 0 <= i < j < |a|
      ensures a[i] != a[j]
    {
      if a[i] == a[j] {
        RepeatCounts(a, i, j);
        CountsOnce(b, a[i]);
      }
    }
  }

  // ------------------------------------------------------------- sorting in place

  /** CFArraySortValues: the same items, in ascending order. */
  method SortValues(values: seq<string>) returns (list: seq<string>)
    ensures SortedBy(list, x => x) && multiset(list) == multiset(values)
  {
    list := [];
    for n := 0 to |values|
      invariant SortedBy(list, x => x) && multiset(list) == multiset(values[..n])
    {
      var i := FindPlace(list, values[n], x => x);
      assert values[..n + 1] == values[..n] + [values[n]];
      InsertedSorted(list, i, values[n], x => x);
      InsertedCounts(list, i, values[n]);
      list := Insert(list, i, values[n]);
    }
    assert values[..|values|] == values;
  }

  /** Sorting a list without repeats gives the one sorting of its items. */
  lemma SortedValues(values: seq<string>, list: seq<string>)
    requires Distinct(values) && SortedBy(list, x => x) && multiset(list) == multiset(values)
    ensures list == Sorted(ToSet(values))
  {
    DistinctMultiset(list, values);
    forall x
      ensures x in list <==> x in values
    {
      assert x in multiset(list) <==> x in multiset(values);
    }
    SortedUnique(list, ToSet(values));
  }
}
