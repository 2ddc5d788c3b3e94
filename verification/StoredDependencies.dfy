/**
 Dependencies as the properties table has them: reading them (darwinxref/DBDataStore.c) and resolving
 them along the inheritance chain (darwinxref/plugins/dependencies.c).
 */
module StoredDependencies {
  import opened CStrings
  import Dependencies
  import opened PropertyList
  import opened PropertyQueries
  import opened PropertyReadback
  import opened PropertyStore
  import opened PropertyValues
  import opened TextOrder
  import opened Wrappers

  // ------------------------------------------------------------- a lone string

  lemma OneIsListed(s: string, v: Plist)
    ensures Lists(v, {s}) <==> v == Arr([Str(s)])
  {
    if Lists(v, {s}) {
      var texts := Texts(v.items);
      DistinctFits(texts, {s});
      assert s in ToSet(texts);
      assert v.items == [Str(s)];
    }
    if v == Arr([Str(s)]) {
      assert Texts(v.items) == [s];
    }
  }

  lemma OneIsKeyed(key: string, s: string)
    requires NUL !in key && NUL !in s
    ensures KeyedStrings(map[key := Str(s)]) == map[key := {s}]
  {
    var entries := map[key := Str(s)];
    KeyedStringsAt(entries, key);
    KeptEntryStrings(entries, key);
    assert s in EntryStrings(entries[key]);
  }

  lemma OneStringIsRead(key: string, s: string, r: Option<Plist>)
    requires NUL !in key && NUL !in s
    ensures ComesBackAs(DictionaryType(true), Dict(map[key := Str(s)]), r) <==>
      r == Some(Dict(map[key := Arr([Str(s)])]))
  {
    OneIsKeyed(key, s);
    var values := map[key := {s}];
    assert key in values;
    if r.Some? && r.value.Dict? && key in r.value.entries {
      OneIsListed(s, r.value.entries[key]);
    }
    if DictReads(true, values, r) {
      assert r.value.entries == map[key := Arr([Str(s)])];
    }
  }

  /** A lone string among the dependencies of a project comes back as an array. */
  lemma StringBecomesArray(types: Types, build: Build, project: Project, plist: Plist, key: string, s: string,
                           read: map<Property, Plist>)
    requires types == map[Dependencies.PROPERTY := DictionaryType(true)]
    requires plist == Dict(map[Dependencies.PROPERTY := Dict(map[key := Str(s)])]) && NUL !in key && NUL !in s
    requires CString(project) != ""
    ensures Sane(plist) && Stored(types, map[], build, Some(project), plist).ok
    ensures
      IsReading(types, Stored(types, map[], build, Some(project), plist).rows, CString(build),
        Some(CString(project)), read) <==>
      read == map[Dependencies.PROPERTY := Dict(map[key := Arr([Str(s)])])]
  {
    var v, w := Dict(map[key := Str(s)]), Dict(map[key := Arr([Str(s)])]);
    OneReadsBack(types, build, project, Dependencies.PROPERTY, v, read);
    OneStringIsRead(key, s, Find(read, Dependencies.PROPERTY));
    OneIsRecovered(types, Dependencies.PROPERTY, v, w, read);
  }

  // ------------------------------------------------------------- dependencies from rows

  /** A dictionary of arrays of strings. */
  predicate HoldsLists(r: Option<Plist>) {
    r.Some? ==> r.value.Dict? && forall k :: k in r.value.entries ==>
      r.value.entries[k].Arr? && AllStrings(r.value.entries[k].items)
  }

  function ListsOf(r: Option<Plist>): Dependencies.Deps
    requires HoldsLists(r)
  {
    if r.None? then map[] else map k | k in r.value.entries :: Texts(r.value.entries[k].items)
  }

  function CellsAt(rows: Rows, build: Build, project: Project): seq<Cell> {
    At(rows, Query(build, project, Dependencies.PROPERTY))
  }

  /** What DBCopyOnePropDictionary may return of these rows. */
  ghost predicate CanReadLists(cells: seq<Cell>, deps: Dependencies.Deps) {
    exists r :: CanRead(DictionaryType(true), cells, r) && HoldsLists(r) && ListsOf(r) == deps
  }

  /** What the table says about inheritance and dependencies. */
  ghost predicate IsDatabaseOf(rows: Rows, db: Dependencies.Database) {
    && IsInheritance(rows, db.inherits)
    && forall build, project :: CanReadLists(CellsAt(rows, build, project), db.At(build, project))
  }

  /** Each key of a build's rows has a list of its values. */
  lemma ListsAre(cells: seq<Cell>, deps: Dependencies.Deps, key: string)
    requires CanReadLists(cells, deps)
    ensures key in deps <==> ValuesFor(cells, key) != {}
    ensures key in deps ==> Distinct(deps[key])
    ensures Dependencies.SetAt(deps, key) == ValuesFor(cells, key)
  {
    var r :| CanRead(DictionaryType(true), cells, r) && HoldsLists(r) && ListsOf(r) == deps;
    KeyHasValue(cells, key);
    var values := KeyedValues(cells);
    assert DictReads(true, values, r);
    assert key in deps <==> key in values;
    if key in deps {
      assert EntryReads(true, values[key], r.value.entries[key]);
    }
  }

  /** The lists that are read have no repeats. */
  lemma StoredHasNoRepeats(rows: Rows, db: Dependencies.Database)
    requires IsDatabaseOf(rows, db)
    ensures db.NoRepeats()
  {
    forall at, key | at in db.dependencies && key in db.dependencies[at]
      ensures Distinct(db.dependencies[at][key])
    {
      assert db.At(at.0, at.1) == db.dependencies[at];
      ListsAre(CellsAt(rows, at.0, at.1), db.At(at.0, at.1), key);
    }
  }

  function ValuesAt(rows: Rows, build: Build, project: Project, key: string): set<string> {
    ValuesFor(CellsAt(rows, build, project), key)
  }

  /** The fold of the rows themselves. */
  function FoldedRows(rows: Rows, builds: seq<Build>, project: Project, t: string): Option<set<string>> {
    if builds == [] then None
    else
      var build := builds[|builds| - 1];
      var base := if ValuesAt(rows, build, project, t) != {} then Some(ValuesAt(rows, build, project, t))
                  else FoldedRows(rows, builds[..|builds| - 1], project, t);
      if base.None? then None
      else
        Some(base.value - ValuesAt(rows, build, project, "-" + t) + ValuesAt(rows, build, project, "+" + t))
  }

  lemma {:induction false} FoldsRows(rows: Rows, db: Dependencies.Database, builds: seq<Build>, project: Project,
                                     t: string)
    requires IsDatabaseOf(rows, db)
    ensures Dependencies.Folded(db, builds, project, t) == FoldedRows(rows, builds, project, t)
  {
    if builds == [] {
    } else {
      var build := builds[|builds| - 1];
      FoldsRows(rows, db, builds[..|builds| - 1], project, t);
      var cells, deps := CellsAt(rows, build, project), db.At(build, project);
      assert CanReadLists(cells, deps);
      ListsAre(cells, deps, t);
      ListsAre(cells, deps, "-" + t);
      ListsAre(cells, deps, "+" + t);
      assert t in db.At(build, project) ==>
        Dependencies.SetAt(db.At(build, project), t) == ToSet(db.At(build, project)[t]);
    }
  }

  /** Whatever order the lists are read in, resolving a type that sorts after '-' folds the rows
      of the chain. */
  lemma StoredMeansFolded(rows: Rows, db: Dependencies.Database, builds: seq<Build>, project: Project, t: string)
    requires IsDatabaseOf(rows, db) && Dependencies.Plain(t) && t[0] > '-'
    ensures Dependencies.SameItems(Dependencies.Resolved(db, builds, project, t), FoldedRows(rows, builds, project, t))
  {
    StoredHasNoRepeats(rows, db);
    Dependencies.ResolvedMeansFolded(db, builds, project, t);
    FoldsRows(rows, db, builds, project, t);
  }
}
