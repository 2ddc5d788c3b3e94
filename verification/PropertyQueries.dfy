/**
 Lookups in the properties table (darwinxref/DBDataStore.c): what the queries answer for single builds is
 what PropertyLookup walks through.
 */
module PropertyQueries {
  import Inheritance
  import Lookup = PropertyLookup
  import opened PropertyList
  import opened PropertyStore
  import opened PropertyValues
  import opened Wrappers

  /** In a query the empty name stands for the build itself; all names are C strings. */
  function Query(build: Build, name: Project, property: Property): Slot {
    Slot(build, if name == "" then None else Some(name), property)
  }

  function NameOf(project: Option<Project>): Project {
    if project.Some? then project.value else ""
  }

  ghost predicate IsInheritance(rows: Rows, inherits: Inheritance.Inherits) {
    forall b :: StringReads(At(rows, Query(b, "", "inherits")), Inheritance.Parent(inherits, b))
  }

  /** What single builds say about a property, according to the table. */
  ghost predicate IsStoreOf(types: Types, rows: Rows, property: Property, store: Lookup.Store<Plist>)
    requires property in types
  {
    && IsInheritance(rows, store.inherits)
    && (forall b, name :: CanRead(types[property], At(rows, Query(b, name, property)), store.value(b, name)))
    && (forall b, name :: StringReads(At(rows, Query(b, name, "original")), store.original(b, name)))
  }

  /** DBCopyProp: r may be found for a property, which has to be declared. */
  ghost predicate CanFind(types: Types, rows: Rows, build: Build, name: Project, property: Property, r: Option<Plist>) {
    if property !in types then r.None?
    else
      exists store :: IsStoreOf(types, rows, property, store) && Finds(store, build, name, r)
  }

  ghost predicate Finds(store: Lookup.Store<Plist>, build: Build, name: Project, r: Option<Plist>) {
    Lookup.LookupEnds(store, build, name) && Lookup.IsLookup(store, Lookup.Asked(store, build, name), name, r)
  }

  // ------------------------------------------------------------- a build's own rows

  /** These rows are read as a value. */
  predicate HasValue(t: Type, cells: seq<Cell>) {
    cells != [] && (t.DictionaryType? ==> KeySet(cells) != {})
  }

  lemma ReadsAValue(t: Type, cells: seq<Cell>, r: Option<Plist>)
    requires HasValue(t, cells) && CanRead(t, cells, r)
    ensures r.Some?
  {
    if t.DictionaryType? {
      var k :| k in KeySet(cells);
      assert k in KeyedValues(cells);
    }
  }

  /** Whatever aliases and inheritance there are, a property with rows at its own build and project
      has the value of these rows. */
  lemma OwnRowsAreFound(types: Types, rows: Rows, property: Property, store: Lookup.Store<Plist>, build: Build,
                        name: Project, r: Option<Plist>)
    requires property in types && IsStoreOf(types, rows, property, store)
    requires HasValue(types[property], At(rows, Query(build, name, property)))
    ensures Finds(store, build, name, r) <==> r == store.value(build, name)
    ensures Finds(store, build, name, r) ==>
      r.Some? && CanRead(types[property], At(rows, Query(build, name, property)), r)
  {
    var own := store.value(build, name);
    ReadsAValue(types[property], At(rows, Query(build, name, property)), own);
    assert own.Some?;
    Lookup.OwnValueIsFound(store, build, name, r);
    assert Lookup.IsLookup(store, Lookup.Asked(store, build, name), name, r) <==> r == own;
  }

  function SomeString(cells: seq<Cell>): (r: Option<string>)
    ensures StringReads(cells, r)
  {
    if cells == [] then None
    else
      assert cells[0].value in Values(cells);
      Some(cells[0].value)
  }

  function InheritsOf(rows: Rows): Inheritance.Inherits {
    map slot | slot in rows && slot == Query(slot.build, "", "inherits") && rows[slot] != [] ::
      slot.build := rows[slot][0].value
  }

  lemma RowsInherit(rows: Rows)
    ensures IsInheritance(rows, InheritsOf(rows))
  {
    var inherits := InheritsOf(rows);
    forall b
      ensures StringReads(At(rows, Query(b, "", "inherits")), Inheritance.Parent(inherits, b))
    {
      var slot := Query(b, "", "inherits");
      if At(rows, slot) != [] {
        assert slot in rows && slot == Query(slot.build, "", "inherits");
        assert rows[slot][0].value in Values(rows[slot]);
      }
    }
  }

  /** Any reading of one slot is part of what the table may answer. */
  lemma HasStore(types: Types, rows: Rows, property: Property, build: Build, name: Project, r: Option<Plist>)
      returns (store: Lookup.Store<Plist>)
    requires property in types && CanRead(types[property], At(rows, Query(build, name, property)), r)
    ensures IsStoreOf(types, rows, property, store) && store.value(build, name) == r
  {
    RowsInherit(rows);
    store := Lookup.Store(
      InheritsOf(rows),
      (b, n) => if b == build && n == name then r else SomeReading(types[property], At(rows, Query(b, n, property))),
      (b, n) => SomeString(At(rows, Query(b, n, "original"))));
  }

  /** So looking it up gives exactly what its own rows can be read as. */
  lemma OwnIsRead(types: Types, rows: Rows, build: Build, name: Project, property: Property, r: Option<Plist>)
    requires property in types && HasValue(types[property], At(rows, Query(build, name, property)))
    ensures CanFind(types, rows, build, name, property, r) <==>
      CanRead(types[property], At(rows, Query(build, name, property)), r)
  {
    if CanFind(types, rows, build, name, property, r) {
      var store :| IsStoreOf(types, rows, property, store) && Finds(store, build, name, r);
      OwnRowsAreFound(types, rows, property, store, build, name, r);
    }
    if CanRead(types[property], At(rows, Query(build, name, property)), r) {
      var store := HasStore(types, rows, property, build, name, r);
      OwnRowsAreFound(types, rows, property, store, build, name, r);
    }
  }
}
