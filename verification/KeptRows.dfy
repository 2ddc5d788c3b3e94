/**
 Exactly which rows stay the same when they are read and what was read is stored again
 (darwinxref/DBDataStore.c).
 */
module KeptRows {
  import opened CStrings
  import opened PropertyList
  import opened PropertyQueries
  import opened PropertyReadback
  import opened PropertyStore
  import opened PropertyValues
  import opened TextOrder
  import opened Wrappers

  // ------------------------------------------------------------- the same value, the same rows

  lemma SameItemCells(key: string, v: Plist, w: Plist)
    requires v.Arr? && AllStrings(v.items) && Distinct(v.items)
    requires forall i :: 0 <= i < |v.items| ==> KeptString(v.items[i])
    requires w.Arr? && AllStrings(w.items) && multiset(v.items) == multiset(w.items)
    ensures multiset(EntryCells(key, v)) == multiset(EntryCells(key, w))
  {
    var a, b := EntryCells(key, v), EntryCells(key, w);
    DistinctMultiset(w.items, v.items);
    assert forall x :: x in v.items <==> x in multiset(v.items);
    assert forall x :: x in w.items <==> x in multiset(w.items);
    PlainCells(key, v.items);
    PlainCells(key, w.items);
    SameMultiset(a, b);
  }

  lemma PlainCells(key: string, items: seq<Plist>)
    requires AllStrings(items) && Distinct(items) && forall x :: x in items ==> KeptString(x)
    ensures var cells := EntryCells(key, Arr(items));
      && Distinct(cells)
      && forall c: Cell :: c in cells <==> c.key == Some(CString(key)) && Str(c.value) in items
  {
    var cells := EntryCells(key, Arr(items));
    forall i | 0 <= i < |items|
      ensures items[i] in items && cells[i] == Cell(Some(CString(key)), items[i].text)
    {
      assert KeptString(items[i]);
    }
    forall i, j | 0 <= i < j < |cells|
      ensures cells[i] != cells[j]
    {
      assert items[i] != items[j];
    }
    forall c: Cell | c.key == Some(CString(key)) && Str(c.value) in items
      ensures c in cells
    {
      var i :| 0 <= i < |items| && items[i] == Str(c.value);
      assert cells[i] == c;
    }
  }

  lemma SameDictCells(entries: map<string, Plist>, others: map<string, Plist>, arrays: bool, keys: seq<string>)
    requires Storable(Dict(entries)) && Storable(Dict(others)) && KeptDict(arrays, entries)
    requires SameValue(Dict(entries), Dict(others)) && forall k :: k in keys ==> k in entries
    ensures multiset(DictCells(entries, keys)) == multiset(DictCells(others, keys))
  {
    if keys == [] {
    } else {
      var fewer, last := keys[..|keys| - 1], keys[|keys| - 1];
      SameDictCells(entries, others, arrays, fewer);
      assert SameEntry(entries[last], others[last]) && KeptEntry(arrays, entries[last]);
      if arrays {
        SameItemCells(last, entries[last], others[last]);
      }
    }
  }

  /** A value that is the same up to order is stored as the same rows, up to order. */
  lemma SameValueSameCells(t: Type, v: Plist, w: Plist)
    requires Storable(v) && Matches(t, v) && Kept(t, v) && SameValue(v, w)
    ensures Storable(w) && Matches(t, w) && multiset(Cells(v)) == multiset(Cells(w))
  {
    if v.Dict? {
      forall k | k in w.entries && w.entries[k].Arr?
        ensures AllStrings(w.entries[k].items)
      {
        assert KeptEntry(t.arrays, v.entries[k]) && SameEntry(v.entries[k], w.entries[k]);
        forall i | 0 <= i < |w.entries[k].items|
          ensures w.entries[k].items[i].Str?
        {
          assert w.entries[k].items[i] in multiset(v.entries[k].items);
        }
      }
      SameDictCells(v.entries, w.entries, t.arrays, Sorted(v.entries.Keys));
    }
  }

  // ------------------------------------------------------------- reading and storing again

  /** The rows, in some order, of a value that comes back as it was. */
  ghost predicate KeptCells(t: Type, cells: seq<Cell>) {
    exists v :: Storable(v) && Matches(t, v) && Kept(t, v) && multiset(cells) == multiset(Cells(v))
  }

  /** Storing v again gives these rows, in some order. */
  ghost predicate GivesRows(t: Type, cells: seq<Cell>, v: Plist) {
    Storable(v) && Matches(t, v) && multiset(Cells(v)) == multiset(cells)
  }

  /** What is read depends on the rows, not on their order. */
  lemma SameRowsSameReading(t: Type, a: seq<Cell>, b: seq<Cell>, r: Option<Plist>)
    requires multiset(a) == multiset(b)
    ensures CanRead(t, a, r) <==> CanRead(t, b, r)
    ensures a == [] <==> b == []
  {
    SameMembers(a, b);
    forall k
      ensures ValuesFor(a, k) == ValuesFor(b, k)
    {
    }
    assert Values(a) == Values(b) && KeySet(a) == KeySet(b);
    assert KeyedValues(a) == KeyedValues(b);
  }

  lemma KeptIsReadFully(t: Type, cells: seq<Cell>, r: Option<Plist>)
    requires KeptCells(t, cells) && CanRead(t, cells, r)
    ensures r.Some? && GivesRows(t, cells, r.value)
  {
    var v :| Storable(v) && Matches(t, v) && Kept(t, v) && multiset(cells) == multiset(Cells(v));
    SameRowsSameReading(t, cells, Cells(v), r);
    ValueReads(t, v, r);
    KeptComesBack(t, v, r);
    SameValueSameCells(t, v, r.value);
  }

  lemma KeptHasValue(t: Type, cells: seq<Cell>)
    requires KeptCells(t, cells) && cells != []
    ensures HasValue(t, cells)
  {
    var v :| Storable(v) && Matches(t, v) && Kept(t, v) && multiset(cells) == multiset(Cells(v));
    SameMembers(cells, Cells(v));
    StoredHasValue(t, v);
    assert KeySet(cells) == KeySet(Cells(v));
  }

  lemma StoredTextIsPlain(v: Plist, cells: seq<Cell>, c: Cell)
    requires Storable(v) && multiset(Cells(v)) == multiset(cells) && c in cells
    ensures NUL !in c.value && (c.key.Some? && v.Dict? ==> NUL !in c.key.value)
  {
    SameMembers(Cells(v), cells);
    if v.Dict? {
      DictTextIsPlain(v.entries, Sorted(v.entries.Keys), c);
    }
  }

  lemma {:induction false} DictTextIsPlain(entries: map<string, Plist>, keys: seq<string>, c: Cell)
    requires Storable(Dict(entries)) && (forall k :: k in keys ==> k in entries) && c in DictCells(entries, keys)
    ensures NUL !in c.value && (c.key.Some? ==> NUL !in c.key.value)
  {
    if keys == [] {
    } else if c in DictCells(entries, keys[..|keys| - 1]) {
      DictTextIsPlain(entries, keys[..|keys| - 1], c);
    }
  }

  lemma ReadArrayIsKept(cells: seq<Cell>, v: Plist)
    requires CanRead(ArrayType, cells, Some(v)) && GivesRows(ArrayType, cells, v) && cells != []
    ensures Kept(ArrayType, v)
  {
    SameRowsSameReading(ArrayType, cells, Cells(v), Some(v));
    ArrayReads(v.items, Some(v));
    ArrayIsKept(v.items);
  }

  lemma ReadDictIsKept(arrays: bool, cells: seq<Cell>, v: Plist)
    requires CanRead(DictionaryType(arrays), cells, Some(v)) && GivesRows(DictionaryType(arrays), cells, v)
    ensures Kept(DictionaryType(arrays), v)
  {
    var values := KeyedValues(cells);
    forall k | k in v.entries
      ensures NUL !in k && KeptEntry(arrays, v.entries[k])
    {
      var c :| c in cells && c.key == Some(k);
      StoredTextIsPlain(v, cells, c);
      assert c.value in values[k];
      forall s | s in values[k]
        ensures NUL !in s
      {
        var d :| d in cells && d.key == Some(k) && d.value == s;
        StoredTextIsPlain(v, cells, d);
      }
      SameEntryIsKept(arrays, values[k], v.entries[k], v.entries[k]);
    }
  }

  /** Rows stay the same exactly if they are those of a value that comes back as it was. */
  lemma RowsAreKept(t: Type, cells: seq<Cell>)
    requires cells != []
    ensures (forall r :: CanRead(t, cells, r) ==> r.Some? && GivesRows(t, cells, r.value)) <==> KeptCells(t, cells)
  {
    if KeptCells(t, cells) {
      forall r | CanRead(t, cells, r)
        ensures r.Some? && GivesRows(t, cells, r.value)
      {
        KeptIsReadFully(t, cells, r);
      }
    }
    var r := SomeReading(t, cells);
    if r.Some? && GivesRows(t, cells, r.value) {
      ReadIsKept(t, cells, r.value);
    }
  }

  lemma ReadIsKept(t: Type, cells: seq<Cell>, v: Plist)
    requires CanRead(t, cells, Some(v)) && GivesRows(t, cells, v) && cells != []
    ensures Kept(t, v)
  {
    match t
    case StringType =>
      SameMembers(Cells(v), cells);
      assert Cells(v)[0] in cells;
      var c :| c in cells && c.value == v.text;
      StoredTextIsPlain(v, cells, c);
    case ArrayType =>
      ReadArrayIsKept(cells, v);
    case DictionaryType(arrays) =>
      ReadDictIsKept(arrays, cells, v);
  }
}
