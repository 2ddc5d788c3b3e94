/**
 Writing property lists to the properties table and reading them back (darwinxref/DBDataStore.c).
 The table is a map from (build, project, property) to the rows with these values, in the order
 they were inserted.  Text gets there as C strings.
 */
module PropertyStore {
  import opened CStrings
  import opened PropertyList
  import opened TextOrder
  import opened Wrappers

  type Build = string

  type Project = string

  type Property = string

  /** A NULL project stands for the build itself. */
  datatype Slot = Slot(build: Build, project: Option<Project>, property: Property)

  datatype Cell = Cell(key: Option<string>, value: string)

  type Rows = map<Slot, seq<Cell>>

  /** The groups table: for each build and group the members, in the order of their rows. */
  datatype GroupSlot = GroupSlot(build: Build, name: string)

  type Groups = map<GroupSlot, seq<string>>

  datatype Tables = Tables(rows: Rows, groups: Groups)

  /** The kinds of values properties are declared with; a dictionary holds strings or arrays. */
  datatype Type = StringType | ArrayType | DictionaryType(arrays: bool)

  type Types = map<Property, Type>

  // ------------------------------------------------------------- values as rows

  /** %d */
  function Digits(n: nat): string {
    if n < 10 then [DIGITS[n]] else Digits(n / 10) + [DIGITS[n % 10]]
  }

  const DIGITS := "0123456789"

  predicate AllStrings(items: seq<Plist>) {
    forall i :: 0 <= i < |items| ==> items[i].Str?
  }

  /** What the code can store: arrays hold strings only. */
  predicate Storable(v: Plist) {
    match v
    case Str(_) => true
    case Arr(items) => AllStrings(items)
    case Dict(entries) => forall k :: k in entries && entries[k].Arr? ==> AllStrings(entries[k].items)
  }

  function ArrayCells(items: seq<Plist>): (cells: seq<Cell>)
    requires AllStrings(items)
    ensures |cells| == |items|
  {
    seq(|items|, i requires 0 <= i < |items| => Cell(Some(Digits(i)), CString(items[i].text)))
  }

  /** The rows of one dictionary entry: one for a string, one for each item of an array, none for
      anything else. */
  function EntryCells(key: string, v: Plist): seq<Cell>
    requires v.Arr? ==> AllStrings(v.items)
  {
    match v
    case Str(s) => [Cell(Some(CString(key)), CString(s))]
    case Arr(items) => seq(|items|, i requires 0 <= i < |items| => Cell(Some(CString(key)), CString(items[i].text)))
    case Dict(_) => []
  }

  function DictCells(entries: map<string, Plist>, keys: seq<string>): seq<Cell>
    requires Storable(Dict(entries)) && forall k :: k in keys ==> k in entries
  {
    if keys == [] then []
    else
      DictCells(entries, keys[..|keys| - 1]) + EntryCells(keys[|keys| - 1], entries[keys[|keys| - 1]])
  }

  /** The rows a value is stored as. */
  ghost function Cells(v: Plist): seq<Cell>
    requires Storable(v)
  {
    match v
    case Str(s) => [Cell(None, CString(s))]
    case Arr(items) => ArrayCells(items)
    case Dict(entries) => DictCells(entries, Sorted(entries.Keys))
  }

  predicate Matches(t: Type, v: Plist) {
    match t
    case StringType => v.Str?
    case ArrayType => v.Arr?
    case DictionaryType(_) => v.Dict?
  }

  function At<K, V>(rows: map<K, seq<V>>, slot: K): seq<V> {
    if slot in rows then rows[slot] else []
  }

  // ------------------------------------------------------------- what a plist does to the table

  predicate Pseudo(property: Property) {
    property == "build" || property == "projects" || property == "groups"
  }

  predicate AreGroups(groups: Plist) {
    groups.Dict? ==> forall k :: k in groups.entries ==> groups.entries[k].Arr? && AllStrings(groups.entries[k].items)
  }

  /** What the code takes for granted: names are strings, and arrays hold strings only. */
  ghost predicate Sane(plist: Plist)
    decreases plist
  {
    plist.Dict? ==>
      && ("build" in plist.entries ==> plist.entries["build"].Str?)
      && ("name" in plist.entries ==> plist.entries["name"].Str?)
      && (forall q :: q in plist.entries && !Pseudo(q) ==> Storable(plist.entries[q]))
      && ("projects" in plist.entries ==> AllSane(plist.entries["projects"]))
      && ("groups" in plist.entries ==> AreGroups(plist.entries["groups"]))
  }

  ghost predicate AllSane(projects: Plist)
    decreases projects
  {
    projects.Dict? ==> forall k :: k in projects.entries ==> Sane(projects.entries[k])
  }

  function BuildOf(entries: map<string, Plist>, build: Build): Build
    requires "build" in entries ==> entries["build"].Str?
  {
    CString(if "build" in entries then entries["build"].text else build)
  }

  function ProjectOf(entries: map<string, Plist>, project: Option<Project>): Option<Project>
    requires "name" in entries ==> entries["name"].Str?
  {
    if "name" in entries then Some(CString(entries["name"].text))
    else if project.Some? then Some(CString(project.value))
    else None
  }

  /** The parts that must be dictionaries are. */
  predicate WellFormed(plist: Plist) {
    && plist.Dict?
    && ("projects" in plist.entries ==> plist.entries["projects"].Dict?)
    && ("groups" in plist.entries ==> plist.entries["groups"].Dict?)
  }

  /** Without the rows of properties that are not mentioned any more. */
  function Dropped(rows: Rows, build: Build, project: Option<Project>, mentioned: set<Property>): Rows {
    map slot | slot in rows &&
      !(slot.build == build && slot.project == project && slot.property !in mentioned) :: rows[slot]
  }

  function Put<K, V>(rows: map<K, seq<V>>, slot: K, cells: seq<V>): map<K, seq<V>> {
    if cells == [] then rows - {slot} else rows[slot := cells]
  }

  lemma PutTwice<K, V>(rows: map<K, seq<V>>, slot: K, a: seq<V>, b: seq<V>)
    ensures Put(Put(rows, slot, a), slot, b) == Put(rows, slot, b)
    ensures At(Put(rows, slot, a), slot) == a
  {
  }

  datatype Outcome = Outcome(rows: Rows, ok: bool)

  ghost function SetOne(types: Types, rows: Rows, slot: Slot, v: Plist): Outcome
    requires Storable(v)
  {
    if slot.property in types && Matches(types[slot.property], v) then Outcome(Put(rows, slot, Cells(v)), true)
    else Outcome(rows, false)
  }

  /** The first n properties, until one fails. */
  ghost function SetProps(types: Types, rows: Rows, build: Build, project: Option<Project>,
                          entries: map<string, Plist>, keys: seq<Property>, n: nat): Outcome
    requires n <= |keys| && forall i :: 0 <= i < |keys| ==> keys[i] in entries
    requires forall q :: q in entries && !Pseudo(q) ==> Storable(entries[q])
  {
    if n == 0 then Outcome(rows, true)
    else
      var so := SetProps(types, rows, build, project, entries, keys, n - 1);
      var q := keys[n - 1];
      if !so.ok || Pseudo(q) then so
      else SetOne(types, so.rows, Slot(build, project, q), entries[q])
  }

  /** The step that writes a plist's own properties. */
  ghost function SetOwn(types: Types, rows: Rows, build: Build, project: Option<Project>, entries: map<string, Plist>)
    : Outcome
    requires forall q :: q in entries && !Pseudo(q) ==> Storable(entries[q])
  {
    var keys := Sorted(entries.Keys);
    SetProps(types, Dropped(rows, build, project, entries.Keys), build, project, entries, keys, |keys|)
  }

  predicate AreProjects(names: seq<Project>, projects: Plist) {
    projects.Dict? && forall i :: 0 <= i < |names| ==> names[i] in projects.entries
  }

  ghost function SetAllProjects(types: Types, rows: Rows, build: Build, projects: Plist): Outcome
    requires AllSane(projects) && projects.Dict?
    decreases projects, 1
  {
    var names := Sorted(projects.entries.Keys);
    SetProjects(types, rows, build, projects, names, |names|)
  }

  ghost function Stored(types: Types, rows: Rows, build: Build, project: Option<Project>, plist: Plist): Outcome
    requires Sane(plist)
    decreases plist, 3
  {
    if !WellFormed(plist) then Outcome(rows, false)
    else StoredAt(types, rows, BuildOf(plist.entries, build), ProjectOf(plist.entries, project), plist)
  }

  /** The properties of one build or project, then those of the projects inside. */
  ghost function StoredAt(types: Types, rows: Rows, build: Build, project: Option<Project>, plist: Plist): Outcome
    requires Sane(plist) && WellFormed(plist)
    decreases plist, 2
  {
    var own := SetOwn(types, rows, build, project, plist.entries);
    if own.ok && "projects" in plist.entries then
      SetAllProjects(types, own.rows, build, plist.entries["projects"])
    else own
  }

  /** The first n projects, until one fails. */
  ghost function SetProjects(types: Types, rows: Rows, build: Build, projects: Plist, names: seq<Project>,
                             n: nat): Outcome
    requires AllSane(projects) && AreProjects(names, projects) && n <= |names|
    decreases projects, 0, n
  {
    if n == 0 then Outcome(rows, true)
    else
      var so := SetProjects(types, rows, build, projects, names, n - 1);
      if !so.ok then so
      else Stored(types, so.rows, build, Some(names[n - 1]), projects.entries[names[n - 1]])
  }

  // ------------------------------------------------------------- what it does to the groups

  function Members(items: seq<Plist>): (members: seq<string>)
    requires AllStrings(items)
    ensures |members| == |items|
  {
    seq(|items|, i requires 0 <= i < |items| => CString(items[i].text))
  }

  function WithoutBuild(groups: Groups, build: Build): Groups {
    map slot | slot in groups && slot.build != build :: groups[slot]
  }

  /** The groups of the given names, one after the other. */
  function PutGroups(groups: Groups, build: Build, dict: Plist, names: seq<string>): Groups
    requires dict.Dict? && AreGroups(dict) && forall k :: k in names ==> k in dict.entries
  {
    if names == [] then groups
    else
      var name := names[|names| - 1];
      Put(PutGroups(groups, build, dict, names[..|names| - 1]), GroupSlot(build, CString(name)),
        Members(dict.entries[name].items))
  }

  /** A build's groups are replaced as a whole. */
  ghost function Regrouped(groups: Groups, build: Build, dict: Plist): Groups
    requires dict.Dict? && AreGroups(dict)
  {
    PutGroups(WithoutBuild(groups, build), build, dict, Sorted(dict.entries.Keys))
  }

  ghost function GroupAllProjects(types: Types, rows: Rows, groups: Groups, build: Build, projects: Plist): Groups
    requires AllSane(projects) && projects.Dict?
    decreases projects, 1
  {
    var names := Sorted(projects.entries.Keys);
    GroupProjects(types, rows, groups, build, projects, names, |names|)
  }

  /** The groups table after a plist was written: first the groups of the projects inside, as far
      as writing them got, then its own, also after a failure. */
  ghost function Grouped(types: Types, rows: Rows, groups: Groups, build: Build, project: Option<Project>, plist: Plist)
    : Groups
    requires Sane(plist)
    decreases plist, 3
  {
    if !WellFormed(plist) then groups
    else
      var b, p := BuildOf(plist.entries, build), ProjectOf(plist.entries, project);
      var inner := GroupedInside(types, rows, groups, b, p, plist);
      if "groups" in plist.entries then Regrouped(inner, b, plist.entries["groups"]) else inner
  }

  ghost function GroupedInside(types: Types, rows: Rows, groups: Groups, build: Build, project: Option<Project>,
                               plist: Plist): Groups
    requires Sane(plist) && WellFormed(plist)
    decreases plist, 2
  {
    var own := SetOwn(types, rows, build, project, plist.entries);
    if own.ok && "projects" in plist.entries then
      GroupAllProjects(types, own.rows, groups, build, plist.entries["projects"])
    else groups
  }

  ghost function GroupProjects(types: Types, rows: Rows, groups: Groups, build: Build, projects: Plist,
                               names: seq<Project>, n: nat): Groups
    requires AllSane(projects) && AreProjects(names, projects) && n <= |names|
    decreases projects, 0, n
  {
    if n == 0 then groups
    else
      var so := SetProjects(types, rows, build, projects, names, n - 1);
      var before := GroupProjects(types, rows, groups, build, projects, names, n - 1);
      if !so.ok then before
      else Grouped(types, so.rows, before, build, Some(names[n - 1]), projects.entries[names[n - 1]])
  }

  // ------------------------------------------------------------- one step of each loop

  lemma {:induction false} PropsStayFailed(types: Types, rows: Rows, build: Build, project: Option<Project>,
                                           entries: map<string, Plist>, keys: seq<Property>, n: nat)
    requires n <= |keys| && forall i :: 0 <= i < |keys| ==> keys[i] in entries
    requires forall q :: q in entries && !Pseudo(q) ==> Storable(entries[q])
    requires n == |keys| || !SetProps(types, rows, build, project, entries, keys, n).ok
    ensures SetProps(types, rows, build, project, entries, keys, |keys|) ==
      SetProps(types, rows, build, project, entries, keys, n)
    decreases |keys| - n
  {
    if n == |keys| {
    } else {
      PropsStayFailed(types, rows, build, project, entries, keys, n + 1);
    }
  }

  lemma {:induction false} ProjectsStayFailed(types: Types, rows: Rows, build: Build, projects: Plist,
                                              names: seq<Project>, n: nat)
    requires AllSane(projects) && AreProjects(names, projects) && n <= |names|
    requires n == |names| || !SetProjects(types, rows, build, projects, names, n).ok
    ensures SetProjects(types, rows, build, projects, names, |names|) ==
        SetProjects(types, rows, build, projects, names, n)
    decreases |names| - n
  {
    if n == |names| {
    } else {
      ProjectsStayFailed(types, rows, build, projects, names, n + 1);
    }
  }

  lemma {:induction false} GroupsStayFailed(types: Types, rows: Rows, groups: Groups, build: Build, projects: Plist,
                                            names: seq<Project>, n: nat)
    requires AllSane(projects) && AreProjects(names, projects) && n <= |names|
    requires n == |names| || !SetProjects(types, rows, build, projects, names, n).ok
    ensures GroupProjects(types, rows, groups, build, projects, names, |names|) ==
      GroupProjects(types, rows, groups, build, projects, names, n)
    decreases |names| - n
  {
    if n == |names| {
    } else {
      ProjectsStayFailed(types, rows, build, projects, names, n);
      GroupsStayFailed(types, rows, groups, build, projects, names, n + 1);
    }
  }

  lemma PutGroupsNext(groups: Groups, build: Build, dict: Plist, names: seq<string>, i: nat)
    requires dict.Dict? && AreGroups(dict) && i < |names| && forall k :: k in names ==> k in dict.entries
    ensures PutGroups(groups, build, dict, names[..i + 1]) ==
      Put(PutGroups(groups, build, dict, names[..i]), GroupSlot(build, CString(names[i])),
          Members(dict.entries[names[i]].items))
  {
    assert names[..i + 1][..i] == names[..i];
  }

  /** Some of the properties were looked at. */
  ghost function DroppedSome(rows: Rows, build: Build, project: Option<Project>, mentioned: set<Property>,
                             seen: set<Property>): Rows {
    map slot | slot in rows &&
      !(slot.build == build && slot.project == project && slot.property !in mentioned && slot.property in seen) ::
        rows[slot]
  }

  lemma DropOne(rows: Rows, build: Build, project: Option<Project>, mentioned: set<Property>,
                seen: set<Property>, prop: Property)
    ensures DroppedSome(rows, build, project, mentioned, seen + {prop}) ==
      if prop in mentioned then DroppedSome(rows, build, project, mentioned, seen)
      else DroppedSome(rows, build, project, mentioned, seen) - {Slot(build, project, prop)}
  {
  }

  lemma DroppedAll(rows: Rows, build: Build, project: Option<Project>, mentioned: set<Property>, seen: set<Property>)
    requires forall slot :: slot in rows && slot.build == build && slot.project == project ==> slot.property in seen
    ensures DroppedSome(rows, build, project, mentioned, seen) == Dropped(rows, build, project, mentioned)
  {
  }

  lemma DictCellsNext(entries: map<string, Plist>, keys: seq<string>, i: nat)
    requires Storable(Dict(entries)) && i < |keys| && forall k :: k in keys ==> k in entries
    ensures DictCells(entries, keys[..i + 1]) == DictCells(entries, keys[..i]) + EntryCells(keys[i], entries[keys[i]])
  {
    assert keys[..i + 1][..i] == keys[..i];
  }

  /** The rows of an array in a dictionary are in the order of its items. */
  lemma EntryCellsInOrder(key: string, a: seq<Plist>, b: seq<Plist>)
    requires AllStrings(a) && AllStrings(b)
    ensures AllStrings(a + b) && EntryCells(key, Arr(a + b)) == EntryCells(key, Arr(a)) + EntryCells(key, Arr(b))
    ensures forall s :: EntryCells(key, Arr([Str(s)])) == EntryCells(key, Str(s))
  {
    assert forall i :: 0 <= i < |a + b| ==> (a + b)[i] == if i < |a| then a[i] else b[i - |a|];
  }

  ghost predicate Ascending(cells: seq<Cell>) {
    && (forall i :: 0 <= i < |cells| ==> cells[i].key.Some?)
    && forall i, j :: 0 <= i < j < |cells| ==> Leq(cells[i].key.value, cells[j].key.value)
  }

  lemma AscendingMore(cells: seq<Cell>, more: seq<Cell>, last: string)
    requires Ascending(cells) && forall i :: 0 <= i < |cells| ==> Leq(cells[i].key.value, last)
    requires forall i :: 0 <= i < |more| ==> more[i].key == Some(last)
    ensures Ascending(cells + more)
    ensures forall i :: 0 <= i < |cells + more| ==> Leq((cells + more)[i].key.value, last)
  {
    LeqTotal(last, last);
    assert forall i :: |cells| <= i < |cells + more| ==> (cells + more)[i].key == Some(last);
  }

  /** The rows of a dictionary are in the order of its keys. */
  lemma {:induction false} DictCellsAscend(entries: map<string, Plist>, keys: seq<string>)
    requires Storable(Dict(entries)) && forall k :: k in keys ==> k in entries && NUL !in k
    requires SortedBy(keys, x => x)
    ensures Ascending(DictCells(entries, keys))
    ensures keys != [] ==> forall i ::
      0 <= i < |DictCells(entries, keys)| ==> Leq(DictCells(entries, keys)[i].key.value, keys[|keys| - 1])
  {
    if keys == [] {
    } else {
      var fewer, last := keys[..|keys| - 1], keys[|keys| - 1];
      DictCellsAscend(entries, fewer);
      var so := DictCells(entries, fewer);
      if fewer != [] {
        var before := fewer[|fewer| - 1];
        assert Leq(before, last);
        forall i | 0 <= i < |so|
          ensures Leq(so[i].key.value, last)
        {
          LeqTransitive(so[i].key.value, before, last);
        }
      }
      AscendingMore(so, EntryCells(last, entries[last]), last);
    }
  }

  // ------------------------------------------------------------- the store

  class Store {
    const types: Types
    var rows: Rows
    var groups: Groups
    var nestedTransactions: nat

    /** The states of the tables that were made final, one behind the other. */
    var committed: seq<Tables>

    /** Outside transactions every statement is final. */
    ghost predicate Valid()
      reads this
    {
      nestedTransactions == 0 ==> committed != [] && committed[|committed| - 1] == Tables(rows, groups)
    }

    constructor (types: Types)
      ensures Valid() && this.types == types && rows == map[] && groups == map[] && nestedTransactions == 0
    {
      this.types := types;
      rows, groups := map[], map[];
      nestedTransactions := 0;
      committed := [Tables(map[], map[])];
    }

    method BeginTransaction()
      modifies this`nestedTransactions
      ensures nestedTransactions == old(nestedTransactions) + 1
    {
      nestedTransactions := nestedTransactions + 1;
    }

    method CommitTransaction()
      requires nestedTransactions > 0
      modifies this`nestedTransactions, this`committed
      ensures nestedTransactions == old(nestedTransactions) - 1
      ensures committed == if nestedTransactions == 0 then old(committed) + [Tables(rows, groups)] else old(committed)
    {
      nestedTransactions := nestedTransactions - 1;
      if nestedTransactions == 0 {
        committed := committed + [Tables(rows, groups)];
      }
    }

    /** A statement that changes the table. */
    method Execute(changed: Rows)
      modifies this`rows, this`committed
      ensures rows == changed
      ensures committed == if nestedTransactions == 0 then old(committed) + [Tables(rows, groups)] else old(committed)
    {
      rows := changed;
      if nestedTransactions == 0 {
        committed := committed + [Tables(rows, groups)];
      }
    }

    /** A statement that changes the groups. */
    method ExecuteGroups(changed: Groups)
      modifies this`groups, this`committed
      ensures groups == changed
      ensures committed == if nestedTransactions == 0 then old(committed) + [Tables(rows, groups)] else old(committed)
    {
      groups := changed;
      if nestedTransactions == 0 {
        committed := committed + [Tables(rows, groups)];
      }
    }

    method Delete(slot: Slot)
      requires Valid()
      modifies this`rows, this`committed
      ensures rows == Put(old(rows), slot, [])
      ensures Valid() && (nestedTransactions > 0 ==> committed == old(committed))
    {
      Execute(rows - {slot});
    }

    method Insert(slot: Slot, cell: Cell)
      requires Valid()
      modifies this`rows, this`committed
      ensures rows == Put(old(rows), slot, At(old(rows), slot) + [cell])
      ensures Valid() && (nestedTransactions > 0 ==> committed == old(committed))
    {
      Execute(rows[slot := At(rows, slot) + [cell]]);
    }

    method SetPropString(slot: Slot, value: string)
      requires Valid()
      modifies this`rows, this`committed
      ensures rows == Put(old(rows), slot, Cells(Str(value)))
      ensures Valid() && (nestedTransactions > 0 ==> committed == old(committed))
    {
      Delete(slot);
      var cell := Cell(None, CString(value));
      Insert(slot, cell);
      PutTwice(old(rows), slot, [], [cell]);
      assert [] + [cell] == [cell];
    }

    /** Inserts one more row where some of the cells have been inserted. */
    method InsertNext(slot: Slot, ghost start: Rows, ghost so: seq<Cell>, cell: Cell)
      requires Valid()
      requires rows == Put(start, slot, so)
      modifies this`rows, this`committed
      ensures rows == Put(start, slot, so + [cell])
      ensures Valid() && (nestedTransactions > 0 ==> committed == old(committed))
    {
      Insert(slot, cell);
      PutTwice(start, slot, so, so + [cell]);
    }

    method SetPropArray(slot: Slot, items: seq<Plist>)
      requires Valid()
      requires AllStrings(items)
      modifies this`rows, this`committed
      ensures rows == Put(old(rows), slot, Cells(Arr(items)))
      ensures Valid() && (nestedTransactions > 0 ==> committed == old(committed))
    {
      Delete(slot);
      ghost var cells := ArrayCells(items);
      for i := 0 to |items|
        invariant rows == Put(old(rows), slot, cells[..i])
        invariant Valid() && (nestedTransactions > 0 ==> committed == old(committed))
      {
        InsertNext(slot, old(rows), cells[..i], Cell(Some(Digits(i)), CString(items[i].text)));
        assert cells[..i + 1] == cells[..i] + [cells[i]];
      }
      assert cells[..|items|] == cells;
    }

    /** The rows of one entry, behind those inserted so far. */
    method InsertEntry(slot: Slot, key: string, v: Plist, ghost start: Rows, ghost so: seq<Cell>)
      requires Valid()
      requires (v.Arr? ==> AllStrings(v.items)) && rows == Put(start, slot, so)
      modifies this`rows, this`committed
      ensures rows == Put(start, slot, so + EntryCells(key, v))
      ensures Valid() && (nestedTransactions > 0 ==> committed == old(committed))
    {
      if v.Str? {
        InsertNext(slot, start, so, Cell(Some(CString(key)), CString(v.text)));
      } else if v.Arr? {
        ghost var cells := EntryCells(key, v);
        assert so + cells[..0] == so;
        for j := 0 to |v.items|
          invariant rows == Put(start, slot, so + cells[..j])
          invariant Valid() && (nestedTransactions > 0 ==> committed == old(committed))
        {
          InsertNext(slot, start, so + cells[..j], Cell(Some(CString(key)), CString(v.items[j].text)));
          assert so + cells[..j + 1] == so + cells[..j] + [cells[j]];
        }
        assert cells[..|v.items|] == cells;
      } else {
        assert so + [] == so;
      }
    }

    method SetPropDictionary(slot: Slot, entries: map<string, Plist>)
      requires Valid()
      requires Storable(Dict(entries))
      modifies this`rows, this`committed
      ensures rows == Put(old(rows), slot, Cells(Dict(entries)))
      ensures Valid() && (nestedTransactions > 0 ==> committed == old(committed))
    {
      Delete(slot);
      var keys := Sort(entries.Keys, x => x);
      SortedUnique(keys, entries.Keys);
      InsertEntries(slot, entries, keys, old(rows));
    }

    method InsertEntries(slot: Slot, entries: map<string, Plist>, keys: seq<string>, ghost start: Rows)
      requires Valid()
      requires Storable(Dict(entries)) && rows == Put(start, slot, [])
      requires forall k :: k in keys ==> k in entries
      modifies this`rows, this`committed
      ensures rows == Put(start, slot, DictCells(entries, keys))
      ensures Valid() && (nestedTransactions > 0 ==> committed == old(committed))
    {
      for i := 0 to |keys|
        invariant rows == Put(start, slot, DictCells(entries, keys[..i]))
        invariant Valid() && (nestedTransactions > 0 ==> committed == old(committed))
      {
        DictCellsNext(entries, keys, i);
        InsertEntry(slot, keys[i], entries[keys[i]], start, DictCells(entries, keys[..i]));
      }
      assert keys[..|keys|] == keys;
    }

    /** Fails for unknown properties and for values of another type. */
    method SetProp(slot: Slot, v: Plist) returns (ok: bool)
      requires Valid()
      requires Storable(v)
      modifies this`rows, this`committed
      ensures Outcome(rows, ok) == SetOne(types, old(rows), slot, v)
      ensures Valid() && (nestedTransactions > 0 ==> committed == old(committed))
    {
      if slot.property !in types || !Matches(types[slot.property], v) {
        return false;
      }
      ok := true;
      match v {
        case Str(s) => SetPropString(slot, s);
        case Arr(items) => SetPropArray(slot, items);
        case Dict(entries) => SetPropDictionary(slot, entries);
      }
    }

    /** Deletes the rows of properties the plist does not mention. */
    method DropUnmentioned(build: Build, project: Option<Project>, mentioned: set<Property>)
      requires nestedTransactions > 0
      modifies this`rows, this`committed
      ensures rows == Dropped(old(rows), build, project, mentioned)
      ensures committed == old(committed)
    {
      var existing := set slot | slot in rows && slot.build == build && slot.project == project :: slot.property;
      var rest := existing;
      ghost var dropped: set<Property> := {};
      while rest != {}
        invariant dropped + rest == existing
        invariant rows == DroppedSome(old(rows), build, project, mentioned, dropped)
        invariant committed == old(committed)
        decreases rest
      {
        var prop :| prop in rest;
        rest := rest - {prop};
        DropOne(old(rows), build, project, mentioned, dropped, prop);
        if prop !in mentioned {
          Delete(Slot(build, project, prop));
        }
        dropped := dropped + {prop};
      }
      DroppedAll(old(rows), build, project, mentioned, dropped);
    }

    method SetNextProperty(build: Build, project: Option<Project>, entries: map<string, Plist>, keys: seq<Property>,
                           i: nat, ghost start: Rows) returns (ok: bool)
      requires nestedTransactions > 0 && i < |keys|
      requires forall j :: 0 <= j < |keys| ==> keys[j] in entries
      requires forall q :: q in entries && !Pseudo(q) ==> Storable(entries[q])
      requires Outcome(rows, true) == SetProps(types, start, build, project, entries, keys, i)
      modifies this`rows, this`committed
      ensures Outcome(rows, ok) == SetProps(types, start, build, project, entries, keys, i + 1)
      ensures committed == old(committed)
    {
      ok := true;
      if !Pseudo(keys[i]) {
        ok := SetProp(Slot(build, project, keys[i]), entries[keys[i]]);
      }
    }

    /** Each property of the plist in the order of their names, until one fails. */
    method SetProperties(build: Build, project: Option<Project>, entries: map<string, Plist>, keys: seq<Property>)
      returns (ok: bool)
      requires nestedTransactions > 0
      requires forall i :: 0 <= i < |keys| ==> keys[i] in entries
      requires forall q :: q in entries && !Pseudo(q) ==> Storable(entries[q])
      modifies this`rows, this`committed
      ensures Outcome(rows, ok) == SetProps(types, old(rows), build, project, entries, keys, |keys|)
      ensures committed == old(committed)
    {
      ok := true;
      var i: nat := 0;
      while ok && i < |keys|
        invariant i <= |keys| && committed == old(committed)
        invariant Outcome(rows, ok) == SetProps(types, old(rows), build, project, entries, keys, i)
        decreases |keys| - i
      {
        ok := SetNextProperty(build, project, entries, keys, i, old(rows));
        i := i + 1;
      }
      PropsStayFailed(types, old(rows), build, project, entries, keys, i);
    }

    /** DBSetGroupMembers: the members of a group in place of those it has. */
    method SetGroupMembers(build: Build, name: string, members: seq<Plist>)
      requires Valid() && AllStrings(members)
      modifies this`groups, this`committed
      ensures groups == Put(old(groups), GroupSlot(build, CString(name)), Members(members))
      ensures Valid() && (nestedTransactions > 0 ==> committed == old(committed))
    {
      var slot := GroupSlot(build, CString(name));
      ExecuteGroups(groups - {slot});
      ghost var all := Members(members);
      for i := 0 to |members|
        invariant groups == Put(old(groups), slot, all[..i])
        invariant Valid() && (nestedTransactions > 0 ==> committed == old(committed))
      {
        PutTwice(old(groups), slot, all[..i], all[..i + 1]);
        assert all[..i + 1] == all[..i] + [CString(members[i].text)];
        ExecuteGroups(groups[slot := At(groups, slot) + [CString(members[i].text)]]);
      }
      assert all[..|members|] == all;
    }

    /** The groups of the given names, one after the other. */
    method PutAllGroups(build: Build, dict: Plist, names: seq<string>)
      requires dict.Dict? && AreGroups(dict) && nestedTransactions > 0
      requires forall k :: k in names ==> k in dict.entries
      modifies this`groups, this`committed
      ensures groups == PutGroups(old(groups), build, dict, names)
      ensures committed == old(committed)
    {
      for i := 0 to |names|
        invariant groups == PutGroups(old(groups), build, dict, names[..i])
        invariant committed == old(committed)
      {
        PutGroupsNext(old(groups), build, dict, names, i);
        assert names[i] in dict.entries;
        SetGroupMembers(build, names[i], dict.entries[names[i]].items);
      }
      assert names[..|names|] == names;
    }

    /** The part of DBSetPlist that replaces a build's groups. */
    method SetGroups(build: Build, dict: Plist)
      requires dict.Dict? && AreGroups(dict) && nestedTransactions > 0
      modifies this`groups, this`committed
      ensures groups == Regrouped(old(groups), build, dict)
      ensures committed == old(committed)
    {
      ExecuteGroups(WithoutBuild(groups, build));
      var names := Sort(dict.entries.Keys, x => x);
      SortedUnique(names, dict.entries.Keys);
      PutAllGroups(build, dict, names);
    }

    /** The part of DBSetPlist that writes a plist's own properties. */
    method SetOwnProperties(build: Build, project: Option<Project>, entries: map<string, Plist>) returns (ok: bool)
      requires nestedTransactions > 0
      requires forall q :: q in entries && !Pseudo(q) ==> Storable(entries[q])
      modifies this`rows, this`committed
      ensures Outcome(rows, ok) == SetOwn(types, old(rows), build, project, entries)
      ensures committed == old(committed)
    {
      var props := Sort(entries.Keys, x => x);
      SortedUnique(props, entries.Keys);
      DropUnmentioned(build, project, entries.Keys);
      ok := SetProperties(build, project, entries, props);
    }

    /** Writes a plist: the properties of its build or project, then those of the projects inside
        it, then its groups.  Whatever fails, the transaction is committed; the projects inside share the
        outermost one, so that one call makes at most one state of the table final. */
    method SetPlist(buildParam: Build, projectParam: Option<Project>, plist: Plist) returns (ok: bool)
      requires Sane(plist)
      modifies this
      ensures Outcome(rows, ok) == Stored(types, old(rows), buildParam, projectParam, plist)
      ensures groups == Grouped(types, old(rows), old(groups), buildParam, projectParam, plist)
      ensures nestedTransactions == old(nestedTransactions)
      ensures committed ==
        if nestedTransactions == 0 && WellFormed(plist) then old(committed) + [Tables(rows, groups)]
        else old(committed)
      decreases plist, 1
    {
      if !WellFormed(plist) {
        return false;
      }
      var build := BuildOf(plist.entries, buildParam);
      var project := ProjectOf(plist.entries, projectParam);
      BeginTransaction();
      ok := SetContents(build, project, plist);
      if "groups" in plist.entries {
        SetGroups(build, plist.entries["groups"]);
      }
      CommitTransaction();
    }

    /** The part of DBSetPlist between the transaction's begin and the groups. */
    method SetContents(build: Build, project: Option<Project>, plist: Plist) returns (ok: bool)
      requires Sane(plist) && WellFormed(plist) && nestedTransactions > 0
      modifies this
      ensures Outcome(rows, ok) == StoredAt(types, old(rows), build, project, plist)
      ensures groups == GroupedInside(types, old(rows), old(groups), build, project, plist)
      ensures nestedTransactions == old(nestedTransactions) && committed == old(committed)
      decreases plist, 0
    {
      ok := SetOwnProperties(build, project, plist.entries);
      if ok && "projects" in plist.entries {
        ok := SetPlists(build, plist.entries["projects"]);
      }
    }

    method SetPlists(build: Build, projects: Plist) returns (ok: bool)
      requires AllSane(projects) && projects.Dict? && nestedTransactions > 0
      modifies this
      ensures Outcome(rows, ok) == SetAllProjects(types, old(rows), build, projects)
      ensures groups == GroupAllProjects(types, old(rows), old(groups), build, projects)
      ensures nestedTransactions == old(nestedTransactions) && committed == old(committed)
      decreases projects, 4
    {
      var names := Sort(projects.entries.Keys, x => x);
      SortedUnique(names, projects.entries.Keys);
      ok := SetPlistsOf(build, projects, names);
    }

    /** The projects of the given names, until one fails. */
    method SetPlistsOf(build: Build, projects: Plist, names: seq<Project>) returns (ok: bool)
      requires AllSane(projects) && AreProjects(names, projects) && nestedTransactions > 0
      modifies this
      ensures Outcome(rows, ok) == SetProjects(types, old(rows), build, projects, names, |names|)
      ensures groups == GroupProjects(types, old(rows), old(groups), build, projects, names, |names|)
      ensures nestedTransactions == old(nestedTransactions) && committed == old(committed)
      decreases projects, 3
    {
      ok := true;
      var i: nat := 0;
      while ok && i < |names|
        invariant i <= |names| && nestedTransactions == old(nestedTransactions) && committed == old(committed)
        invariant Outcome(rows, ok) == SetProjects(types, old(rows), build, projects, names, i)
        invariant groups == GroupProjects(types, old(rows), old(groups), build, projects, names, i)
        decreases |names| - i
      {
        ok := SetNextPlist(build, projects, names, i, old(rows), old(groups));
        i := i + 1;
      }
      ProjectsStayFailed(types, old(rows), build, projects, names, i);
      GroupsStayFailed(types, old(rows), old(groups), build, projects, names, i);
    }

    method SetNextPlist(build: Build, projects: Plist, names: seq<Project>, i: nat, ghost start: Rows,
                        ghost first: Groups)
        returns (ok: bool)
      requires AllSane(projects) && AreProjects(names, projects) && nestedTransactions > 0 && i < |names|
      requires Outcome(rows, true) == SetProjects(types, start, build, projects, names, i)
      requires groups == GroupProjects(types, start, first, build, projects, names, i)
      modifies this
      ensures Outcome(rows, ok) == SetProjects(types, start, build, projects, names, i + 1)
      ensures groups == GroupProjects(types, start, first, build, projects, names, i + 1)
      ensures nestedTransactions == old(nestedTransactions) && committed == old(committed)
      decreases projects, 2
    {
      ok := SetPlist(build, Some(names[i]), projects.entries[names[i]]);
    }
  }
}
