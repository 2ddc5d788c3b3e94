/**
 What one property's rows are read as (darwinxref/DBDataStore.c).  Where SQL leaves the order of rows
 open, several results are possible.
 */
module PropertyValues {
  import opened CStrings
  import opened PropertyList
  import opened PropertyStore
  import opened TextOrder
  import opened Wrappers

  // ------------------------------------------------------------- values from rows

  function Values(cells: seq<Cell>): set<string> {
    set c | c in cells :: c.value
  }

  function KeySet(cells: seq<Cell>): set<string> {
    set c | c in cells && c.key.Some? :: c.key.value
  }

  function ValuesFor(cells: seq<Cell>, key: string): set<string> {
    set c | c in cells && c.key == Some(key) :: c.value
  }

  /** A missing key comes first. */
  function KeyText(c: Cell): string {
    if c.key.Some? then c.key.value else ""
  }

  /** ORDER BY key: keys are text. */
  ghost predicate InKeyOrder(cells: seq<Cell>, ordered: seq<Cell>) {
    multiset(ordered) == multiset(cells) && SortedBy(ordered, KeyText)
  }

  function ValueList(cells: seq<Cell>): (items: seq<Plist>)
    ensures |items| == |cells|
  {
    seq(|cells|, i requires 0 <= i < |cells| => Str(cells[i].value))
  }

  function Texts(items: seq<Plist>): (texts: seq<string>)
    requires AllStrings(items)
    ensures |texts| == |items| && forall i :: 0 <= i < |items| ==> texts[i] == items[i].text
  {
    seq(|items|, i requires 0 <= i < |items| => items[i].text)
  }

  /** SELECT DISTINCT: each value once, in some order. */
  ghost predicate Lists(v: Plist, values: set<string>) {
    && v.Arr? && AllStrings(v.items)
    && Distinct(Texts(v.items)) && ToSet(Texts(v.items)) == values
  }

  /** The entry of a dictionary of arrays has all values of its key, that of a dictionary of
      strings the one that happens to come first. */
  ghost predicate EntryReads(arrays: bool, values: set<string>, v: Plist) {
    if arrays then Lists(v, values) else v.Str? && v.text in values
  }

  ghost predicate StringReads(cells: seq<Cell>, r: Option<string>) {
    match r
    case None => cells == []
    case Some(s) => s in Values(cells)
  }

  function KeyedValues(cells: seq<Cell>): map<string, set<string>> {
    map k | k in KeySet(cells) :: ValuesFor(cells, k)
  }

  /** An empty dictionary is no value. */
  ghost predicate DictReads(arrays: bool, values: map<string, set<string>>, r: Option<Plist>) {
    if values == map[] then r.None?
    else
      && r.Some? && r.value.Dict? && r.value.entries.Keys == values.Keys
      && forall k :: k in values ==> EntryReads(arrays, values[k], r.value.entries[k])
  }

  /** DBCopyOneProp: r is what may be read from these rows. */
  ghost predicate CanRead(t: Type, cells: seq<Cell>, r: Option<Plist>) {
    match t
    case StringType =>
      if cells == [] then r.None? else r.Some? && r.value.Str? && r.value.text in Values(cells)
    case ArrayType =>
      if cells == [] then r.None?
      else r.Some? && exists ordered :: InKeyOrder(cells, ordered) && r.value == Arr(ValueList(ordered))
    case DictionaryType(arrays) =>
      DictReads(arrays, KeyedValues(cells), r)
  }

  // ------------------------------------------------------------- something can always be read

  lemma {:induction false} CanOrder(cells: seq<Cell>) returns (ordered: seq<Cell>)
    ensures InKeyOrder(cells, ordered)
    decreases |cells|
  {
    if cells == [] {
      ordered := [];
    } else {
      var rest := CanOrder(cells[1..]);
      var i := Place(rest, cells[0], KeyText);
      ordered := Insert(rest, i, cells[0]);
      InsertedSorted(rest, i, cells[0], KeyText);
      InsertedCounts(rest, i, cells[0]);
      assert cells == [cells[0]] + cells[1..];
    }
  }

  lemma {:induction false} CanList(values: set<string>) returns (v: Plist)
    ensures Lists(v, values)
  {
    var list := Sorted(values);
    v := Arr(seq(|list|, i requires 0 <= i < |list| => Str(list[i])));
    assert Texts(v.items) == list;
  }

  lemma CanReadEntry(arrays: bool, values: set<string>) returns (v: Plist)
    requires values != {}
    ensures EntryReads(arrays, values, v)
  {
    if arrays {
      v := CanList(values);
    } else {
      var s :| s in values;
      v := Str(s);
    }
  }

  lemma {:induction false} CanReadEntries(arrays: bool, values: map<string, set<string>>)
      returns (entries: map<string, Plist>)
    requires forall k :: k in values ==> values[k] != {}
    ensures entries.Keys == values.Keys && forall k :: k in values ==> EntryReads(arrays, values[k], entries[k])
    decreases values.Keys
  {
    if values == map[] {
      entries := map[];
    } else {
      var k :| k in values;
      var rest := CanReadEntries(arrays, values - {k});
      var v := CanReadEntry(arrays, values[k]);
      entries := rest[k := v];
    }
  }

  lemma CanReadSomething(t: Type, cells: seq<Cell>) returns (r: Option<Plist>)
    ensures CanRead(t, cells, r)
  {
    match t {
      case StringType =>
        if cells == [] {
          r := None;
        } else {
          assert cells[0].value in Values(cells);
          r := Some(Str(cells[0].value));
        }
      case ArrayType =>
        if cells == [] {
          r := None;
        } else {
          var ordered := CanOrder(cells);
          r := Some(Arr(ValueList(ordered)));
        }
      case DictionaryType(arrays) =>
        forall k | k in KeySet(cells)
          ensures ValuesFor(cells, k) != {}
        {
          var c :| c in cells && c.key == Some(k);
          assert c.value in ValuesFor(cells, k);
        }
        var entries := CanReadEntries(arrays, KeyedValues(cells));
        r := if KeyedValues(cells) == map[] then None else Some(Dict(entries));
    }
  }

  ghost function SomeReading(t: Type, cells: seq<Cell>): (r: Option<Plist>)
    ensures CanRead(t, cells, r)
  {
    assert exists r :: CanRead(t, cells, r) by {
      var r := CanReadSomething(t, cells);
    }
    var r :| CanRead(t, cells, r);
    r
  }

  // ------------------------------------------------------------- arrays there and back

  /** The items as C strings. */
  function CItems(items: seq<Plist>): (kept: seq<Plist>)
    requires AllStrings(items)
    ensures |kept| == |items| && AllStrings(kept)
  {
    seq(|items|, i requires 0 <= i < |items| => Str(CString(items[i].text)))
  }

  /** Keys 0 to 9 are in the same order as numbers and as texts. */
  lemma SingleDigits(i: nat, j: nat)
    requires i < j < 10
    ensures Leq(Digits(i), Digits(j))
  {
    assert DIGITS[i] < DIGITS[j];
  }

  lemma {:induction false} DigitsAreApart(i: nat, j: nat)
    requires Digits(i) == Digits(j)
    ensures i == j
  {
    assert forall d, e :: 0 <= d < e < 10 ==> DIGITS[d] != DIGITS[e];
    var a, b := Digits(i), Digits(j);
    assert a[|a| - 1] == DIGITS[i % 10] && b[|b| - 1] == DIGITS[j % 10];
    if i >= 10 && j >= 10 {
      assert a[..|a| - 1] == Digits(i / 10) && b[..|b| - 1] == Digits(j / 10);
      DigitsAreApart(i / 10, j / 10);
    }
  }

  lemma {:induction false} DigitsAreText(n: nat)
    ensures NUL !in Digits(n)
  {
    if n < 10 {
    } else {
      DigitsAreText(n / 10);
    }
  }

  /** The indexes of an array, as their texts sort. */
  ghost predicate IsIndexOrder(order: seq<nat>, n: nat) {
    && SortedBy<nat>(order, Digits) && Distinct(order)
    && (forall i: nat :: i in order <==> i < n)
    && forall k :: 0 <= k < |order| ==> order[k] < n
  }

  lemma OneMoreIndex(rest: seq<nat>, i: nat, n: nat)
    requires IsIndexOrder(rest, n) && IsPlace<nat>(rest, i, n, Digits)
    ensures IsIndexOrder(Insert<nat>(rest, i, n), n + 1)
  {
    var order := Insert<nat>(rest, i, n);
    InsertedSorted<nat>(rest, i, n, Digits);
    InsertedDistinct<nat>(rest, i, n);
    forall k: nat
      ensures k in order <==> k < n + 1
    {
      InsertedMembers<nat>(rest, i, n, k);
    }
    assert forall k :: 0 <= k < |order| ==> order[k] in order;
  }

  lemma {:induction false} CanOrderIndexes(n: nat) returns (order: seq<nat>)
    ensures IsIndexOrder(order, n)
  {
    if n == 0 {
      order := [];
    } else {
      var rest := CanOrderIndexes(n - 1);
      var i := Place<nat>(rest, n - 1, Digits);
      order := Insert<nat>(rest, i, n - 1);
      OneMoreIndex(rest, i, n - 1);
    }
  }

  ghost function IndexOrder(n: nat): (order: seq<nat>)
    ensures IsIndexOrder(order, n)
  {
    assert exists order :: IsIndexOrder(order, n) by {
      var order := CanOrderIndexes(n);
    }
    var order :| IsIndexOrder(order, n);
    order
  }

  lemma OneIndexOrder(order: seq<nat>, n: nat)
    requires IsIndexOrder(order, n)
    ensures order == IndexOrder(n)
  {
    SameMultiset<nat>(order, IndexOrder(n));
    forall i: nat, j: nat | i in order && j in order && Digits(i) == Digits(j)
      ensures i == j
    {
      DigitsAreApart(i, j);
    }
    SameSorting<nat>(order, IndexOrder(n), Digits);
  }

  /** The items at these indexes. */
  function Picked<T>(list: seq<T>, order: seq<nat>): (picked: seq<T>)
    requires forall k :: 0 <= k < |order| ==> order[k] < |list|
    ensures |picked| == |order| && forall k :: 0 <= k < |order| ==> picked[k] == list[order[k]]
  {
    seq(|order|, k requires 0 <= k < |order| => list[order[k]])
  }

  lemma PickedCells(items: seq<Plist>)
    requires AllStrings(items)
    ensures var picked := Picked(ArrayCells(items), IndexOrder(|items|));
      InKeyOrder(ArrayCells(items), picked) && TellsApart(KeyText, picked)
  {
    var cells, order := ArrayCells(items), IndexOrder(|items|);
    var picked := Picked(cells, order);
    assert forall k :: 0 <= k < |order| ==> order[k] in order;
    forall i, j | 0 <= i < |items| && 0 <= j < |items| && KeyText(cells[i]) == KeyText(cells[j])
      ensures i == j
    {
      DigitsAreApart(i, j);
    }
    forall c
      ensures c in picked <==> c in cells
    {
      if c in cells {
        var i: nat :| i < |cells| && cells[i] == c;
        assert i in order;
        var k :| 0 <= k < |order| && order[k] == i;
        assert picked[k] == c;
      }
    }
    SameMultiset(picked, cells);
  }

  /** An array comes back in the order in which its indexes sort as texts, and in no other. */
  lemma ArrayReads(items: seq<Plist>, r: Option<Plist>)
    requires AllStrings(items)
    ensures CanRead(ArrayType, ArrayCells(items), r) <==>
      r == if items == [] then None else Some(Arr(Picked(CItems(items), IndexOrder(|items|))))
  {
    var cells, order := ArrayCells(items), IndexOrder(|items|);
    var picked := Picked(cells, order);
    PickedCells(items);
    assert forall k :: 0 <= k < |order| ==> order[k] in order;
    assert ValueList(picked) == Picked(CItems(items), order);
    forall ordered | InKeyOrder(cells, ordered)
      ensures ordered == picked
    {
      SameSorting(picked, ordered, KeyText);
    }
  }

  lemma FewAreInOrder(n: nat)
    requires n <= 10
    ensures |IndexOrder(n)| == n && forall i :: 0 <= i < n ==> IndexOrder(n)[i] == i
  {
    var order: seq<nat> := seq(n, i requires 0 <= i => i);
    assert forall k :: 0 <= k < |order| ==> order[k] == k;
    forall i, j | 0 <= i < j < |order|
      ensures Leq(Digits(order[i]), Digits(order[j]))
    {
      SingleDigits(i, j);
    }
    forall i: nat
      ensures i in order <==> i < n
    {
      assert i < n ==> order[i] == i;
    }
    OneIndexOrder(order, n);
  }

  /** "10" comes before "2". */
  lemma TenBeforeTwo(order: seq<nat>)
    requires SortedBy<nat>(order, Digits) && |order| > 10
    ensures order[2] != 2 || order[10] != 10
  {
    assert Digits(10) == Digits(1) + [DIGITS[0]];
    assert !Leq(Digits(2), Digits(10));
    assert Leq(Digits(order[2]), Digits(order[10]));
  }

  /** An array of its own indexes. */
  function Numbers(n: nat): (items: seq<Plist>)
    ensures AllStrings(items) && |items| == n && forall i :: 0 <= i < n ==> items[i] == Str(Digits(i))
  {
    seq(n, i requires 0 <= i => Str(Digits(i)))
  }

  lemma ManyAreShuffled(n: nat)
    requires n > 10
    ensures Picked(CItems(Numbers(n)), IndexOrder(n)) != CItems(Numbers(n))
  {
    var items, order := Numbers(n), IndexOrder(n);
    assert forall k :: 0 <= k < |order| ==> order[k] in order;
    if |order| == n {
      TenBeforeTwo(order);
      var k: nat := if order[2] != 2 then 2 else 10;
      DigitsAreText(k);
      DigitsAreText(order[k]);
      if Digits(order[k]) == Digits(k) {
        DigitsAreApart(order[k], k);
      }
      assert Picked(CItems(items), order)[k] != CItems(items)[k];
    }
  }

  /** Arrays of a length come back in order, as C strings, exactly if they have one to ten items. */
  lemma ArraysReadBackUpToTen(n: nat)
    ensures (forall items, r :: AllStrings(items) && |items| == n && CanRead(ArrayType, ArrayCells(items), r) ==>
               r == Some(Arr(CItems(items))))
            <==> 0 < n <= 10
  {
    if n == 0 {
      assert AllStrings([]) && CanRead(ArrayType, ArrayCells([]), None);
    } else if n > 10 {
      var r := Some(Arr(Picked(CItems(Numbers(n)), IndexOrder(n))));
      ArrayReads(Numbers(n), r);
      ManyAreShuffled(n);
      assert CanRead(ArrayType, ArrayCells(Numbers(n)), r);
    } else {
      forall items, r | AllStrings(items) && |items| == n && CanRead(ArrayType, ArrayCells(items), r)
        ensures r == Some(Arr(CItems(items)))
      {
        ArrayReads(items, r);
        FewAreInOrder(n);
        assert Picked(CItems(items), IndexOrder(n)) == CItems(items);
      }
    }
  }

  // ------------------------------------------------------------- dictionaries there and back

  /** The strings an entry leaves in the table. */
  function EntryStrings(v: Plist): set<string>
    requires v.Arr? ==> AllStrings(v.items)
  {
    match v
    case Str(s) => {CString(s)}
    case Arr(items) => set i | 0 <= i < |items| :: CString(items[i].text)
    case Dict(_) => {}
  }

  /** All strings of the entries whose keys are the same C string. */
  function StringsAt(entries: map<string, Plist>, keys: set<string>, x: string): set<string>
    requires Storable(Dict(entries)) && keys <= entries.Keys
  {
    set k, s | k in keys && CString(k) == x && s in EntryStrings(entries[k]) :: s
  }

  function KeptUnder(entries: map<string, Plist>): set<string>
    requires Storable(Dict(entries))
  {
    set k | k in entries && EntryStrings(entries[k]) != {} :: CString(k)
  }

  /** What a dictionary leaves in the table, by key. */
  function KeyedStrings(entries: map<string, Plist>): map<string, set<string>>
    requires Storable(Dict(entries))
  {
    map x | x in KeptUnder(entries) :: StringsAt(entries, entries.Keys, x)
  }

  lemma KeyedStringsAt(entries: map<string, Plist>, x: string)
    requires Storable(Dict(entries))
    ensures x in KeyedStrings(entries) <==> StringsAt(entries, entries.Keys, x) != {}
  {
    if x in KeptUnder(entries) {
      var k :| k in entries && EntryStrings(entries[k]) != {} && CString(k) == x;
      var s :| s in EntryStrings(entries[k]);
      assert s in StringsAt(entries, entries.Keys, x);
    }
    if StringsAt(entries, entries.Keys, x) != {} {
      var s :| s in StringsAt(entries, entries.Keys, x);
    }
  }

  lemma EntryCellsValues(key: string, v: Plist, x: string)
    requires v.Arr? ==> AllStrings(v.items)
    ensures ValuesFor(EntryCells(key, v), x) == if CString(key) == x then EntryStrings(v) else {}
  {
    var cells := EntryCells(key, v);
    assert forall i :: 0 <= i < |cells| ==> cells[i] in cells;
    if CString(key) == x {
      forall s
        ensures s in ValuesFor(cells, x) <==> s in EntryStrings(v)
      {
        if s in EntryStrings(v) && v.Arr? {
          var i :| 0 <= i < |v.items| && CString(v.items[i].text) == s;
          assert cells[i] == Cell(Some(x), s);
        }
      }
    }
  }

  lemma ValuesForBoth(a: seq<Cell>, b: seq<Cell>, x: string)
    ensures ValuesFor(a + b, x) == ValuesFor(a, x) + ValuesFor(b, x)
  {
  }

  lemma {:induction false} DictCellsValues(entries: map<string, Plist>, keys: seq<string>, x: string)
    requires Storable(Dict(entries)) && forall k :: k in keys ==> k in entries
    ensures ValuesFor(DictCells(entries, keys), x) == StringsAt(entries, ToSet(keys), x)
  {
    if keys == [] {
    } else {
      var fewer, last := keys[..|keys| - 1], keys[|keys| - 1];
      DictCellsValues(entries, fewer, x);
      EntryCellsValues(last, entries[last], x);
      ValuesForBoth(DictCells(entries, fewer), EntryCells(last, entries[last]), x);
      OneMoreKey(entries, keys, x);
    }
  }

  lemma OneMoreKey(entries: map<string, Plist>, keys: seq<string>, x: string)
    requires Storable(Dict(entries)) && keys != [] && forall k :: k in keys ==> k in entries
    ensures var last := keys[|keys| - 1];
      StringsAt(entries, ToSet(keys), x) ==
        StringsAt(entries, ToSet(keys[..|keys| - 1]), x) +
        if CString(last) == x then EntryStrings(entries[last]) else {}
  {
    assert keys == keys[..|keys| - 1] + [keys[|keys| - 1]];
  }

  lemma DictValues(entries: map<string, Plist>)
    requires Storable(Dict(entries))
    ensures KeyedValues(Cells(Dict(entries))) == KeyedStrings(entries)
  {
    var cells, keys := Cells(Dict(entries)), Sorted(entries.Keys);
    assert ToSet(keys) == entries.Keys;
    forall x
      ensures ValuesFor(cells, x) == StringsAt(entries, entries.Keys, x)
      ensures x in KeySet(cells) <==> x in KeyedStrings(entries)
    {
      DictCellsValues(entries, keys, x);
      KeyHasValue(cells, x);
      KeyedStringsAt(entries, x);
    }
  }

  lemma KeyHasValue(cells: seq<Cell>, x: string)
    ensures x in KeySet(cells) <==> ValuesFor(cells, x) != {}
  {
    if x in KeySet(cells) {
      var c :| c in cells && c.key == Some(x);
      assert c.value in ValuesFor(cells, x);
    }
    if ValuesFor(cells, x) != {} {
      var s :| s in ValuesFor(cells, x);
    }
  }

  // ------------------------------------------------------------- values there and back

  /** What a value of a type comes back as.  An array has its items as their indexes sort.  A
      dictionary of arrays has each of its strings once under its key, a lone string as an array of one;
      a dictionary of strings has one of them; keys without strings are gone, and so is a dictionary
      without keys. */
  ghost predicate ComesBackAs(t: Type, v: Plist, r: Option<Plist>)
    requires Storable(v) && Matches(t, v)
  {
    match t
    case StringType => r == Some(Str(CString(v.text)))
    case ArrayType =>
      r == if v.items == [] then None else Some(Arr(Picked(CItems(v.items), IndexOrder(|v.items|))))
    case DictionaryType(arrays) => DictReads(arrays, KeyedStrings(v.entries), r)
  }

  /** Exactly these results can be read after a value was stored. */
  lemma ValueReads(t: Type, v: Plist, r: Option<Plist>)
    requires Storable(v) && Matches(t, v)
    ensures CanRead(t, Cells(v), r) <==> ComesBackAs(t, v, r)
  {
    match v
    case Str(s) =>
      assert Values(Cells(v)) == {CString(s)};
    case Arr(items) =>
      ArrayReads(items, r);
    case Dict(entries) =>
      DictValues(entries);
  }

  /** An entry is the same up to the order of an array. */
  predicate SameEntry(v: Plist, w: Plist) {
    if v.Arr? then w.Arr? && multiset(v.items) == multiset(w.items) else v == w
  }

  /** A value is the same up to the order of the arrays inside a dictionary. */
  predicate SameValue(v: Plist, w: Plist) {
    if v.Dict? then
      && w.Dict? && w.entries.Keys == v.entries.Keys
      && forall k :: k in v.entries ==> SameEntry(v.entries[k], w.entries[k])
    else v == w
  }

  predicate KeptString(v: Plist) {
    v.Str? && NUL !in v.text
  }

  ghost predicate KeptEntry(arrays: bool, v: Plist) {
    if arrays then
      v.Arr? && v.items != [] && Distinct(v.items) && forall i :: 0 <= i < |v.items| ==> KeptString(v.items[i])
    else KeptString(v)
  }

  /** What a dictionary has to be to come back as it was. */
  ghost predicate KeptDict(arrays: bool, entries: map<string, Plist>) {
    entries != map[] && forall k :: k in entries ==> NUL !in k && KeptEntry(arrays, entries[k])
  }

  lemma KeptEntryStrings(entries: map<string, Plist>, k: string)
    requires Storable(Dict(entries)) && k in entries && forall j :: j in entries ==> NUL !in j
    ensures StringsAt(entries, entries.Keys, k) == EntryStrings(entries[k])
  {
  }

  lemma KeptEntryHasStrings(arrays: bool, v: Plist)
    requires KeptEntry(arrays, v)
    ensures EntryStrings(v) != {}
  {
    if arrays {
      assert CString(v.items[0].text) in EntryStrings(v);
    }
  }

  lemma OnlyPlainKeys(entries: map<string, Plist>, x: string)
    requires Storable(Dict(entries)) && x !in entries && forall k :: k in entries ==> NUL !in k
    ensures StringsAt(entries, entries.Keys, x) == {}
  {
  }

  ghost predicate KeyIsKept(entries: map<string, Plist>, values: map<string, set<string>>, k: string)
    requires Storable(Dict(entries))
  {
    if k in entries then k in values && values[k] == EntryStrings(entries[k]) else k !in values
  }

  lemma KeptKey(arrays: bool, entries: map<string, Plist>, k: string)
    requires Storable(Dict(entries)) && KeptDict(arrays, entries)
    ensures KeyIsKept(entries, KeyedStrings(entries), k)
  {
    KeyedStringsAt(entries, k);
    if k in entries {
      KeptEntryStrings(entries, k);
      KeptEntryHasStrings(arrays, entries[k]);
    } else {
      OnlyPlainKeys(entries, k);
    }
  }

  lemma KeptIsRead(arrays: bool, entries: map<string, Plist>, values: map<string, set<string>>, r: Option<Plist>)
    requires Storable(Dict(entries)) && KeptDict(arrays, entries)
    requires forall k :: KeyIsKept(entries, values, k)
    requires DictReads(arrays, values, r)
    ensures r.Some? && SameValue(Dict(entries), r.value)
  {
    var k0 :| k0 in entries;
    assert KeyIsKept(entries, values, k0);
    forall k
      ensures k in values <==> k in entries
      ensures k in entries ==> SameEntry(entries[k], r.value.entries[k])
    {
      assert KeyIsKept(entries, values, k);
      if k in entries {
        EntryIsSame(arrays, entries[k], r.value.entries[k]);
      }
    }
  }

  lemma EntryIsSame(arrays: bool, v: Plist, w: Plist)
    requires KeptEntry(arrays, v) && EntryReads(arrays, EntryStrings(v), w)
    ensures SameEntry(v, w)
  {
    if arrays {
      SameItems(v.items, w.items);
    }
  }

  lemma SameItems(a: seq<Plist>, b: seq<Plist>)
    requires AllStrings(a) && Distinct(a) && forall i :: 0 <= i < |a| ==> KeptString(a[i])
    requires AllStrings(b) && Distinct(Texts(b)) && ToSet(Texts(b)) == EntryStrings(Arr(a))
    ensures multiset(a) == multiset(b)
  {
    forall i, j | 0 <= i < j < |b|
      ensures b[i] != b[j]
    {
      assert Texts(b)[i] != Texts(b)[j];
    }
    forall x
      ensures x in a <==> x in b
    {
      if x in a {
        var i :| 0 <= i < |a| && a[i] == x;
        assert x.text in EntryStrings(Arr(a)) && x.text in ToSet(Texts(b));
        var j :| 0 <= j < |b| && Texts(b)[j] == x.text;
      }
      if x in b {
        var j :| 0 <= j < |b| && b[j] == x;
        assert Texts(b)[j] in ToSet(Texts(b));
        var i :| 0 <= i < |a| && CString(a[i].text) == x.text;
      }
    }
    SameMultiset(a, b);
  }

  /** If a reading is as it was, then the dictionary was one that comes back. */
  lemma OnlyKeptIsSame(arrays: bool, entries: map<string, Plist>, r: Option<Plist>)
    requires Storable(Dict(entries)) && DictReads(arrays, KeyedStrings(entries), r)
    requires r.Some? && SameValue(Dict(entries), r.value)
    ensures KeptDict(arrays, entries)
  {
    var values := KeyedStrings(entries);
    forall k | k in entries
      ensures NUL !in k && KeptEntry(arrays, entries[k])
    {
      KeyedStringsAt(entries, k);
      ReadTextIsPlain(entries, k);
      SameEntryIsKept(arrays, values[k], entries[k], r.value.entries[k]);
    }
  }

  lemma ReadTextIsPlain(entries: map<string, Plist>, x: string)
    requires Storable(Dict(entries)) && StringsAt(entries, entries.Keys, x) != {}
    ensures NUL !in x && forall s :: s in StringsAt(entries, entries.Keys, x) ==> NUL !in s
  {
    var s :| s in StringsAt(entries, entries.Keys, x);
    var k :| k in entries && CString(k) == x && s in EntryStrings(entries[k]);
  }

  lemma SameEntryIsKept(arrays: bool, values: set<string>, v: Plist, w: Plist)
    requires EntryReads(arrays, values, w) && SameEntry(v, w) && values != {}
    requires forall s :: s in values ==> NUL !in s
    ensures KeptEntry(arrays, v)
  {
    if arrays {
      assert forall x :: x in v.items <==> x in multiset(v.items);
      assert forall x :: x in w.items <==> x in multiset(w.items);
      TextsAreKept(v.items, w.items, values);
      DistinctMultiset(v.items, w.items);
    }
  }

  lemma TextsAreKept(a: seq<Plist>, b: seq<Plist>, values: set<string>)
    requires AllStrings(b) && ToSet(Texts(b)) == values && values != {} && forall s :: s in values ==> NUL !in s
    requires Distinct(Texts(b)) && forall x :: x in a <==> x in b
    ensures a != [] && Distinct(b) && forall i :: 0 <= i < |a| ==> KeptString(a[i])
  {
    var s :| s in ToSet(Texts(b));
    var i :| 0 <= i < |b| && Texts(b)[i] == s;
    assert b[i] in a;
    forall i | 0 <= i < |a|
      ensures KeptString(a[i])
    {
      assert a[i] in b;
      var j :| 0 <= j < |b| && b[j] == a[i];
      assert Texts(b)[j] in ToSet(Texts(b));
    }
    forall i, j | 0 <= i < j < |b|
      ensures b[i] != b[j]
    {
      assert Texts(b)[i] != Texts(b)[j];
    }
  }

  /** A dictionary comes back as it was, up to the order of its arrays, exactly if it is not empty,
      no text in it holds a NUL, and every entry is a string or, where arrays belong, an array
      that is not empty and has no repeats. */
  lemma DictionaryIsKept(arrays: bool, entries: map<string, Plist>)
    requires Storable(Dict(entries))
    ensures (forall r :: CanRead(DictionaryType(arrays), Cells(Dict(entries)), r) ==>
               r.Some? && SameValue(Dict(entries), r.value))
            <==> KeptDict(arrays, entries)
  {
    DictValues(entries);
    if KeptDict(arrays, entries) {
      forall k
        ensures KeyIsKept(entries, KeyedStrings(entries), k)
      {
        KeptKey(arrays, entries, k);
      }
      forall r | CanRead(DictionaryType(arrays), Cells(Dict(entries)), r)
        ensures r.Some? && SameValue(Dict(entries), r.value)
      {
        KeptIsRead(arrays, entries, KeyedStrings(entries), r);
      }
    } else {
      var r := SomeReading(DictionaryType(arrays), Cells(Dict(entries)));
      if r.Some? && SameValue(Dict(entries), r.value) {
        OnlyKeptIsSame(arrays, entries, r);
      }
    }
  }

  /** What a value has to be to come back as it was, up to the order of arrays inside a dictionary. */
  ghost predicate Kept(t: Type, v: Plist)
    requires Matches(t, v)
  {
    match v
    case Str(_) => KeptString(v)
    case Arr(items) =>
      && items != [] && Picked(items, IndexOrder(|items|)) == items
      && forall i :: 0 <= i < |items| ==> KeptString(items[i])
    case Dict(entries) => KeptDict(t.arrays, entries)
  }

  lemma KeptItems(items: seq<Plist>)
    requires AllStrings(items)
    ensures CItems(items) == items <==> forall i :: 0 <= i < |items| ==> KeptString(items[i])
  {
    forall i | 0 <= i < |items|
      ensures CItems(items)[i] == items[i] <==> KeptString(items[i])
    {
      assert CItems(items)[i] == Str(CString(items[i].text));
    }
  }

  lemma ArrayIsKept(items: seq<Plist>)
    requires AllStrings(items) && items != []
    ensures Picked(CItems(items), IndexOrder(|items|)) == items <==> Kept(ArrayType, Arr(items))
  {
    KeptItems(items);
    var picked := Picked(CItems(items), IndexOrder(|items|));
    if picked == items {
      forall i | 0 <= i < |items|
        ensures KeptString(items[i])
      {
        assert picked[i] == Str(CString(items[IndexOrder(|items|)[i]].text));
      }
    }
  }

  /** Whatever its type, a value comes back as it was exactly if it is kept. */
  lemma ValueIsKept(t: Type, v: Plist)
    requires Storable(v) && Matches(t, v)
    ensures (forall r :: CanRead(t, Cells(v), r) ==> r.Some? && SameValue(v, r.value)) <==> Kept(t, v)
  {
    var some := SomeReading(t, Cells(v));
    forall r | CanRead(t, Cells(v), r)
      ensures ComesBackAs(t, v, r)
    {
      ValueReads(t, v, r);
    }
    match v
    case Str(_) =>
    case Arr(items) =>
      if items != [] {
        ArrayIsKept(items);
      }
    case Dict(entries) =>
      DictionaryIsKept(t.arrays, entries);
  }
}
