/**
 What is read back after a property list was written (darwinxref/DBDataStore.c).
 */
module PropertyReadback {
  import Inheritance
  import Lookup = PropertyLookup
  import opened CStrings
  import opened PropertyList
  import opened PropertyQueries
  import opened PropertyStore
  import opened PropertyValues
  import opened TextOrder
  import opened Wrappers

  // ------------------------------------------------------------- reading a plist

  /** DBCopyPropNames */
  function PropNames(rows: Rows, build: Build, project: Option<Project>): set<Property> {
    set slot | slot in rows && rows[slot] != [] && slot.build == build && slot.project == project :: slot.property
  }

  function Find<K, V>(table: map<K, V>, key: K): Option<V> {
    if key in table then Some(table[key]) else None
  }

  /** A property that has rows is read as a lookup finds it. */
  ghost predicate CanReadAt(types: Types, rows: Rows, build: Build, project: Option<Project>, q: Property,
                            r: Option<Plist>) {
    if q in PropNames(rows, build, project) then CanFind(types, rows, build, NameOf(project), q, r) else r.None?
  }

  /** DBCopyProjectPlist: what may be read of all properties of a build or project. */
  ghost predicate IsReading(types: Types, rows: Rows, build: Build, project: Option<Project>,
                            read: map<Property, Plist>) {
    forall q :: CanReadAt(types, rows, build, project, q, Find(read, q))
  }

  // ------------------------------------------------------------- one plist there and back

  /** The properties of one build or project are stored as a dictionary says, and no others. */
  ghost predicate Holds(types: Types, rows: Rows, build: Build, project: Option<Project>, entries: map<string, Plist>) {
    && (forall q :: q in entries && !Pseudo(q) ==> Storable(entries[q]))
    && (forall q :: q in entries && !Pseudo(q) ==> q in types && Matches(types[q], entries[q]))
    && (forall q :: !Pseudo(q) ==> At(rows, Slot(build, project, q)) == if q in entries then Cells(entries[q]) else [])
  }

  /** What one more property does to the rows of another, or of itself. */
  lemma OneMoreSet(types: Types, rows: Rows, build: Build, project: Option<Project>, entries: map<string, Plist>,
                   key: Property, q: Property)
    requires key in entries && !Pseudo(q) && (!Pseudo(key) ==> Storable(entries[key]))
    ensures !Pseudo(key) && SetOne(types, rows, Slot(build, project, key), entries[key]).ok ==>
      && key in types && Matches(types[key], entries[key])
      && At(SetOne(types, rows, Slot(build, project, key), entries[key]).rows, Slot(build, project, q)) ==
           (if q == key then Cells(entries[q]) else At(rows, Slot(build, project, q)))
  {
  }

  lemma {:induction false} SetPropsSets(types: Types, rows: Rows, build: Build, project: Option<Project>,
                                        entries: map<string, Plist>, keys: seq<Property>, n: nat, q: Property)
    requires n <= |keys| && (forall i :: 0 <= i < |keys| ==> keys[i] in entries)
    requires forall p :: p in entries && !Pseudo(p) ==> Storable(entries[p])
    requires SetProps(types, rows, build, project, entries, keys, n).ok && !Pseudo(q)
    ensures q in keys[..n] ==> q in entries && q in types && Matches(types[q], entries[q])
    ensures At(SetProps(types, rows, build, project, entries, keys, n).rows, Slot(build, project, q)) ==
      if q in keys[..n] then Cells(entries[q]) else At(rows, Slot(build, project, q))
  {
    if n == 0 {
    } else {
      SetPropsSets(types, rows, build, project, entries, keys, n - 1, q);
      var so := SetProps(types, rows, build, project, entries, keys, n - 1);
      OneMoreSet(types, so.rows, build, project, entries, keys[n - 1], q);
      assert keys[..n] == keys[..n - 1] + [keys[n - 1]];
    }
  }

  lemma {:induction false} SetPropsKeeps(types: Types, rows: Rows, build: Build, project: Option<Project>,
                                         entries: map<string, Plist>, keys: seq<Property>, n: nat, slot: Slot)
    requires n <= |keys| && (forall i :: 0 <= i < |keys| ==> keys[i] in entries)
    requires forall q :: q in entries && !Pseudo(q) ==> Storable(entries[q])
    requires slot.build != build || slot.project != project
    ensures Find(SetProps(types, rows, build, project, entries, keys, n).rows, slot) == Find(rows, slot)
  {
    if n == 0 {
    } else {
      SetPropsKeeps(types, rows, build, project, entries, keys, n - 1, slot);
    }
  }

  lemma SetOwnHolds(types: Types, rows: Rows, build: Build, project: Option<Project>, entries: map<string, Plist>)
    requires forall q :: q in entries && !Pseudo(q) ==> Storable(entries[q])
    requires SetOwn(types, rows, build, project, entries).ok
    ensures Holds(types, SetOwn(types, rows, build, project, entries).rows, build, project, entries)
  {
    var keys := Sorted(entries.Keys);
    var dropped := Dropped(rows, build, project, entries.Keys);
    assert keys[..|keys|] == keys;
    forall q | !Pseudo(q)
      ensures q in entries ==> q in types && Matches(types[q], entries[q])
      ensures At(SetOwn(types, rows, build, project, entries).rows, Slot(build, project, q)) ==
        if q in entries then Cells(entries[q]) else []
    {
      SetPropsSets(types, dropped, build, project, entries, keys, |keys|, q);
      assert q in keys <==> q in entries;
    }
  }

  lemma SetOwnKeeps(types: Types, rows: Rows, build: Build, project: Option<Project>, entries: map<string, Plist>,
                    slot: Slot)
    requires forall q :: q in entries && !Pseudo(q) ==> Storable(entries[q])
    requires slot.build != build || slot.project != project
    ensures Find(SetOwn(types, rows, build, project, entries).rows, slot) == Find(rows, slot)
  {
    var keys := Sorted(entries.Keys);
    SetPropsKeeps(types, Dropped(rows, build, project, entries.Keys), build, project, entries, keys, |keys|, slot);
  }

  // ------------------------------------------------------------- what is not touched

  type Pair = (Build, Option<Project>)

  /** The builds and projects a plist writes to. */
  ghost function Touched(build: Build, project: Option<Project>, plist: Plist): set<Pair>
    requires Sane(plist)
    decreases plist, 1
  {
    if !WellFormed(plist) then {}
    else
      var b, p := BuildOf(plist.entries, build), ProjectOf(plist.entries, project);
      {(b, p)} + if "projects" in plist.entries then TouchedInside(b, plist.entries["projects"]) else {}
  }

  ghost function TouchedInside(build: Build, projects: Plist): set<Pair>
    requires AllSane(projects) && projects.Dict?
    decreases projects, 0
  {
    set k, pair | k in projects.entries && pair in Touched(build, Some(k), projects.entries[k]) :: pair
  }

  /** Whether it succeeds or fails, writing a plist leaves all other builds and projects alone. */
  lemma {:induction false} OthersAreKept(types: Types, rows: Rows, build: Build, project: Option<Project>,
                                         plist: Plist, slot: Slot)
    requires Sane(plist) && (slot.build, slot.project) !in Touched(build, project, plist)
    ensures Find(Stored(types, rows, build, project, plist).rows, slot) == Find(rows, slot)
    decreases plist, 2
  {
    if WellFormed(plist) {
      OthersAreKeptAt(types, rows, BuildOf(plist.entries, build), ProjectOf(plist.entries, project), plist, slot);
    }
  }

  lemma {:induction false} OthersAreKeptAt(types: Types, rows: Rows, build: Build, project: Option<Project>,
                                           plist: Plist, slot: Slot)
    requires Sane(plist) && WellFormed(plist) && (slot.build != build || slot.project != project)
    requires "projects" in plist.entries ==>
      (slot.build, slot.project) !in TouchedInside(build, plist.entries["projects"])
    ensures Find(StoredAt(types, rows, build, project, plist).rows, slot) == Find(rows, slot)
    decreases plist, 1
  {
    SetOwnKeeps(types, rows, build, project, plist.entries, slot);
    var own := SetOwn(types, rows, build, project, plist.entries);
    if own.ok && "projects" in plist.entries {
      var projects := plist.entries["projects"];
      var names := Sorted(projects.entries.Keys);
      OthersAreKeptInside(types, own.rows, build, projects, names, |names|, slot);
    }
  }

  lemma {:induction false} OthersAreKeptInside(types: Types, rows: Rows, build: Build, projects: Plist,
                                               names: seq<Project>, n: nat, slot: Slot)
    requires AllSane(projects) && projects.Dict? && n <= |names|
    requires forall i :: 0 <= i < |names| ==> names[i] in projects.entries
    requires (slot.build, slot.project) !in TouchedInside(build, projects)
    ensures Find(SetProjects(types, rows, build, projects, names, n).rows, slot) == Find(rows, slot)
    decreases projects, 0, n
  {
    if n == 0 {
    } else {
      OthersAreKeptInside(types, rows, build, projects, names, n - 1, slot);
      var so := SetProjects(types, rows, build, projects, names, n - 1);
      if so.ok {
        OthersAreKept(types, so.rows, build, Some(names[n - 1]), projects.entries[names[n - 1]], slot);
      }
    }
  }

  // ------------------------------------------------------------- a whole plist there and back

  lemma HoldsStill(types: Types, before: Rows, after: Rows, build: Build, project: Option<Project>,
                   entries: map<string, Plist>)
    requires forall q :: q in entries && !Pseudo(q) ==> Storable(entries[q])
    requires Holds(types, before, build, project, entries)
    requires forall q :: Find(after, Slot(build, project, q)) == Find(before, Slot(build, project, q))
    ensures Holds(types, after, build, project, entries)
  {
    forall q | !Pseudo(q)
      ensures At(after, Slot(build, project, q)) == if q in entries then Cells(entries[q]) else []
    {
      assert Find(after, Slot(build, project, q)) == Find(before, Slot(build, project, q));
      assert At(before, Slot(build, project, q)) == if q in entries then Cells(entries[q]) else [];
    }
  }

  lemma OwnHoldsAt(types: Types, rows: Rows, build: Build, project: Option<Project>, plist: Plist)
    requires Sane(plist) && WellFormed(plist) && StoredAt(types, rows, build, project, plist).ok
    requires "projects" in plist.entries ==> (build, project) !in TouchedInside(build, plist.entries["projects"])
    ensures Holds(types, StoredAt(types, rows, build, project, plist).rows, build, project, plist.entries)
  {
    var own := SetOwn(types, rows, build, project, plist.entries);
    SetOwnHolds(types, rows, build, project, plist.entries);
    if "projects" in plist.entries {
      var projects := plist.entries["projects"];
      var names := Sorted(projects.entries.Keys);
      var after := SetProjects(types, own.rows, build, projects, names, |names|).rows;
      forall q
        ensures Find(after, Slot(build, project, q)) == Find(own.rows, Slot(build, project, q))
      {
        OthersAreKeptInside(types, own.rows, build, projects, names, |names|, Slot(build, project, q));
      }
      HoldsStill(types, own.rows, after, build, project, plist.entries);
    }
  }

  /** After success, the properties of a plist's own build or project are as it says, unless one
      of the projects inside it was written to the same place. */
  lemma OwnHolds(types: Types, rows: Rows, build: Build, project: Option<Project>, plist: Plist)
    requires Sane(plist) && Stored(types, rows, build, project, plist).ok
    requires "projects" in plist.entries ==>
      (BuildOf(plist.entries, build), ProjectOf(plist.entries, project)) !in
      TouchedInside(BuildOf(plist.entries, build), plist.entries["projects"])
    ensures Holds(types, Stored(types, rows, build, project, plist).rows,
      BuildOf(plist.entries, build), ProjectOf(plist.entries, project), plist.entries)
  {
    OwnHoldsAt(types, rows, BuildOf(plist.entries, build), ProjectOf(plist.entries, project), plist);
  }

  /** "build", "projects" and "groups" are no properties, and names of properties, which are C strings
      where they are declared, hold no NUL. */
  ghost predicate Declared(types: Types) {
    forall q :: q in types ==> !Pseudo(q) && NUL !in q
  }

  ghost predicate ComesBack(types: Types, entries: map<string, Plist>, q: Property, r: Option<Plist>) {
    if q in entries && !Pseudo(q) then
      q in types && Storable(entries[q]) && Matches(types[q], entries[q]) && ComesBackAs(types[q], entries[q], r)
    else r.None?
  }

  /** What comes back of the properties a plist says: each of them, as it comes back by itself. */
  ghost predicate Recovered(types: Types, entries: map<string, Plist>, read: map<Property, Plist>) {
    forall q :: ComesBack(types, entries, q, Find(read, q))
  }

  lemma {:induction false} DictCellsHaveKeys(entries: map<string, Plist>, keys: seq<string>)
    requires Storable(Dict(entries)) && forall k :: k in keys ==> k in entries
    ensures forall c :: c in DictCells(entries, keys) ==> c.key.Some?
  {
    if keys == [] {
    } else {
      DictCellsHaveKeys(entries, keys[..|keys| - 1]);
    }
  }

  lemma StoredHasValue(t: Type, v: Plist)
    requires Storable(v) && Matches(t, v) && Cells(v) != []
    ensures HasValue(t, Cells(v))
  {
    if v.Dict? {
      DictCellsHaveKeys(v.entries, Sorted(v.entries.Keys));
      assert Cells(v)[0] in Cells(v);
      assert Cells(v)[0].key.value in KeySet(Cells(v));
    }
  }

  /** One property: it is read exactly as what it comes back as. */
  lemma PropertyReads(types: Types, rows: Rows, build: Build, project: Option<Project>, entries: map<string, Plist>,
                      q: Property, r: Option<Plist>)
    requires Holds(types, rows, build, project, entries) && q in entries && !Pseudo(q) && project != Some("")
    ensures CanReadAt(types, rows, build, project, q, r) <==> ComesBackAs(types[q], entries[q], r)
  {
    var slot := Slot(build, project, q);
    var cells := Cells(entries[q]);
    assert At(rows, slot) == cells;
    ValueReads(types[q], entries[q], r);
    assert Query(build, NameOf(project), q) == slot;
    if cells != [] {
      assert slot in rows && slot.property in PropNames(rows, build, project);
      StoredHasValue(types[q], entries[q]);
      OwnIsRead(types, rows, build, NameOf(project), q, r);
    }
  }

  lemma OthersAreNotRead(types: Types, rows: Rows, build: Build, project: Option<Project>, entries: map<string, Plist>,
                         q: Property, r: Option<Plist>)
    requires Declared(types) && Holds(types, rows, build, project, entries) && (q !in entries || Pseudo(q))
    ensures CanReadAt(types, rows, build, project, q, r) <==> r.None?
  {
    if !Pseudo(q) {
      assert At(rows, Slot(build, project, q)) == [];
    }
  }

  lemma HoldsReads(types: Types, rows: Rows, build: Build, project: Option<Project>, entries: map<string, Plist>,
                   read: map<Property, Plist>)
    requires Declared(types) && Holds(types, rows, build, project, entries) && project != Some("")
    ensures IsReading(types, rows, build, project, read) <==> Recovered(types, entries, read)
  {
    forall q
      ensures CanReadAt(types, rows, build, project, q, Find(read, q)) <==> ComesBack(types, entries, q, Find(read, q))
    {
      if q in entries && !Pseudo(q) {
        PropertyReads(types, rows, build, project, entries, q, Find(read, q));
      } else {
        OthersAreNotRead(types, rows, build, project, entries, q, Find(read, q));
      }
    }
  }

  /** A plist inside another that does not say where else it belongs. */
  predicate Plain(plist: Plist) {
    plist.Dict? && "build" !in plist.entries && "name" !in plist.entries && "projects" !in plist.entries
  }

  /** Such plists only, under names that differ as C strings. */
  predicate AllPlain(projects: Plist) {
    && projects.Dict?
    && (forall k :: k in projects.entries ==> Plain(projects.entries[k]))
    && (forall j, k :: j in projects.entries && k in projects.entries && CString(j) == CString(k) ==> j == k)
  }

  function EntriesOf(plist: Plist): map<string, Plist> {
    if plist.Dict? then plist.entries else map[]
  }

  lemma PlainHolds(types: Types, rows: Rows, build: Build, k: Project, plist: Plist)
    requires Plain(plist) && Sane(plist) && NUL !in build && Stored(types, rows, build, Some(k), plist).ok
    ensures Holds(types, Stored(types, rows, build, Some(k), plist).rows, build, Some(CString(k)), plist.entries)
  {
    OwnHolds(types, rows, build, Some(k), plist);
  }

  lemma PlainKeeps(types: Types, rows: Rows, build: Build, k: Project, plist: Plist, other: Project,
                   entries: map<string, Plist>)
    requires Plain(plist) && Sane(plist) && CString(k) != other && Holds(types, rows, build, Some(other), entries)
    ensures Holds(types, Stored(types, rows, build, Some(k), plist).rows, build, Some(other), entries)
  {
    var after := Stored(types, rows, build, Some(k), plist).rows;
    forall q
      ensures Find(after, Slot(build, Some(other), q)) == Find(rows, Slot(build, Some(other), q))
    {
      OthersAreKept(types, rows, build, Some(k), plist, Slot(build, Some(other), q));
    }
    HoldsStill(types, rows, after, build, Some(other), entries);
  }

  lemma {:induction false} ProjectsHold(types: Types, rows: Rows, build: Build, projects: Plist, names: seq<Project>,
                                        n: nat, i: nat)
    requires AllSane(projects) && AllPlain(projects) && i < n <= |names| && Distinct(names) && NUL !in build
    requires forall k :: 0 <= k < |names| ==> names[k] in projects.entries
    requires SetProjects(types, rows, build, projects, names, n).ok
    ensures Holds(types, SetProjects(types, rows, build, projects, names, n).rows, build, Some(CString(names[i])),
      EntriesOf(projects.entries[names[i]]))
    decreases n
  {
    var so := SetProjects(types, rows, build, projects, names, n - 1);
    var sub := projects.entries[names[n - 1]];
    assert Plain(sub) && Sane(sub) && Plain(projects.entries[names[i]]);
    if i == n - 1 {
      PlainHolds(types, so.rows, build, names[i], sub);
    } else {
      ProjectsHold(types, rows, build, projects, names, n - 1, i);
      PlainKeeps(types, so.rows, build, names[n - 1], sub, CString(names[i]),
        EntriesOf(projects.entries[names[i]]));
    }
  }

  lemma ProjectHoldsAt(types: Types, rows: Rows, build: Build, project: Option<Project>, plist: Plist, k: Project)
    requires Sane(plist) && WellFormed(plist) && StoredAt(types, rows, build, project, plist).ok && NUL !in build
    requires "projects" in plist.entries && AllPlain(plist.entries["projects"])
    requires k in plist.entries["projects"].entries
    ensures Holds(types, StoredAt(types, rows, build, project, plist).rows, build, Some(CString(k)),
      EntriesOf(plist.entries["projects"].entries[k]))
  {
    var projects := plist.entries["projects"];
    var names := Sorted(projects.entries.Keys);
    var i :| 0 <= i < |names| && names[i] == k;
    ProjectsHold(types, SetOwn(types, rows, build, project, plist.entries).rows, build, projects, names, |names|, i);
  }

  /** The projects of a build plist are stored as it says, each one. */
  lemma ProjectHolds(types: Types, rows: Rows, build: Build, project: Option<Project>, plist: Plist, k: Project)
    requires Sane(plist) && Stored(types, rows, build, project, plist).ok
    requires "projects" in plist.entries && AllPlain(plist.entries["projects"])
    requires k in plist.entries["projects"].entries
    ensures Holds(types, Stored(types, rows, build, project, plist).rows, BuildOf(plist.entries, build),
      Some(CString(k)), EntriesOf(plist.entries["projects"].entries[k]))
  {
    ProjectHoldsAt(types, rows, BuildOf(plist.entries, build), ProjectOf(plist.entries, project), plist, k);
  }

  // ------------------------------------------------------------- the place a plist is written to

  /** What the dictionary itself says under the key, else what the caller gave. */
  ghost predicate Told(entries: map<string, Plist>, key: string, given: Option<string>, text: Option<string>) {
    if key in entries then text.Some? && entries[key] == Str(text.value) else text == given
  }

  function NamedBy(text: Option<string>): Option<Project> {
    if text.Some? then Some(CString(text.value)) else None
  }

  /** The project is one of those inside the plist. */
  ghost predicate Inside(plist: Plist, project: Option<Project>) {
    && plist.Dict? && "projects" in plist.entries && plist.entries["projects"].Dict?
    && exists k :: k in plist.entries["projects"].entries && project == Some(CString(k))
  }

  /** The plist belongs to this build and project, and those inside it say nothing else. */
  ghost predicate BelongsTo(plist: Plist, build: Build, project: Option<Project>, b: string, p: Option<string>) {
    && WellFormed(plist)
    && Told(plist.entries, "build", Some(build), Some(b)) && Told(plist.entries, "name", project, p)
    && ("projects" in plist.entries ==> AllPlain(plist.entries["projects"]))
  }

  lemma PlaceIsTold(plist: Plist, build: Build, project: Option<Project>, b: string, p: Option<string>)
    requires Sane(plist) && BelongsTo(plist, build, project, b, p)
    ensures BuildOf(plist.entries, build) == CString(b) && ProjectOf(plist.entries, project) == NamedBy(p)
  {
  }

  lemma PlainTouches(build: Build, projects: Plist, pair: Pair)
    requires AllSane(projects) && AllPlain(projects) && NUL !in build && pair in TouchedInside(build, projects)
    ensures pair.0 == build && exists k :: k in projects.entries && pair.1 == Some(CString(k))
  {
    var k :| k in projects.entries && pair in Touched(build, Some(k), projects.entries[k]);
    assert Plain(projects.entries[k]);
  }

  /** The build and the project that the plist itself names are those whose properties become what it
      says; where it names none, it is those the caller gave. */
  lemma OwnHoldsThere(types: Types, rows: Rows, build: Build, project: Option<Project>, plist: Plist,
                      b: string, p: Option<string>)
    requires Sane(plist) && BelongsTo(plist, build, project, b, p) && !Inside(plist, NamedBy(p))
    requires Stored(types, rows, build, project, plist).ok
    ensures Holds(types, Stored(types, rows, build, project, plist).rows, CString(b), NamedBy(p), plist.entries)
    ensures forall q :: q != "build" && q != "projects" && q != "groups" ==>
      At(Stored(types, rows, build, project, plist).rows, Slot(CString(b), NamedBy(p), q)) ==
        if q in plist.entries then Cells(plist.entries[q]) else []
  {
    PlaceIsTold(plist, build, project, b, p);
    if "projects" in plist.entries && (CString(b), NamedBy(p)) in TouchedInside(CString(b), plist.entries["projects"]) {
      PlainTouches(CString(b), plist.entries["projects"], (CString(b), NamedBy(p)));
    }
    OwnHolds(types, rows, build, project, plist);
  }

  /** And so for each of the projects inside. */
  lemma ProjectHoldsThere(types: Types, rows: Rows, build: Build, project: Option<Project>, plist: Plist,
                          b: string, p: Option<string>, k: Project)
    requires Sane(plist) && BelongsTo(plist, build, project, b, p)
    requires "projects" in plist.entries && k in plist.entries["projects"].entries
    requires Stored(types, rows, build, project, plist).ok
    ensures Holds(types, Stored(types, rows, build, project, plist).rows, CString(b), Some(CString(k)),
      EntriesOf(plist.entries["projects"].entries[k]))
  {
    PlaceIsTold(plist, build, project, b, p);
    ProjectHolds(types, rows, build, project, plist, k);
  }

  /** All other builds, and all projects that it does not name, are untouched, also after a failure. */
  lemma OthersAreKeptThere(types: Types, rows: Rows, build: Build, project: Option<Project>, plist: Plist,
                           b: string, p: Option<string>, slot: Slot)
    requires Sane(plist) && BelongsTo(plist, build, project, b, p)
    requires slot.build != CString(b) || (slot.project != NamedBy(p) && !Inside(plist, slot.project))
    ensures Find(Stored(types, rows, build, project, plist).rows, slot) == Find(rows, slot)
  {
    PlaceIsTold(plist, build, project, b, p);
    var pair := (slot.build, slot.project);
    if "projects" in plist.entries && pair in TouchedInside(CString(b), plist.entries["projects"]) {
      PlainTouches(CString(b), plist.entries["projects"], pair);
    }
    OthersAreKept(types, rows, build, project, plist, slot);
  }

  /** A plist that names its build or its project is written there, whatever the caller gave. */
  lemma NamesDecide(types: Types, rows: Rows, groups: Groups, build: Build, project: Option<Project>, plist: Plist,
                    otherBuild: Build, otherProject: Option<Project>)
    requires Sane(plist) && WellFormed(plist)
    requires otherBuild == build || "build" in plist.entries
    requires otherProject == project || "name" in plist.entries
    ensures Stored(types, rows, build, project, plist) == Stored(types, rows, otherBuild, otherProject, plist)
    ensures Grouped(types, rows, groups, build, project, plist) ==
      Grouped(types, rows, groups, otherBuild, otherProject, plist)
  {
  }

  /** After a plist was written with success, these are exactly the results that reading its own
      build or project can have. */
  lemma ReadsBack(types: Types, rows: Rows, build: Build, project: Option<Project>, plist: Plist,
                  read: map<Property, Plist>)
    requires Sane(plist) && Declared(types) && Stored(types, rows, build, project, plist).ok
    requires ProjectOf(plist.entries, project) != Some("")
    requires "projects" in plist.entries ==>
      (BuildOf(plist.entries, build), ProjectOf(plist.entries, project)) !in
      TouchedInside(BuildOf(plist.entries, build), plist.entries["projects"])
    ensures
      IsReading(types, Stored(types, rows, build, project, plist).rows, BuildOf(plist.entries, build),
        ProjectOf(plist.entries, project), read) <==>
      Recovered(types, plist.entries, read)
  {
    var b, p := BuildOf(plist.entries, build), ProjectOf(plist.entries, project);
    OwnHolds(types, rows, build, project, plist);
    HoldsReads(types, Stored(types, rows, build, project, plist).rows, b, p, plist.entries, read);
  }

  /** And so for each of the projects inside it. */
  lemma ProjectReadsBack(types: Types, rows: Rows, build: Build, project: Option<Project>, plist: Plist, k: Project,
                         read: map<Property, Plist>)
    requires Sane(plist) && Declared(types) && Stored(types, rows, build, project, plist).ok
    requires "projects" in plist.entries && AllPlain(plist.entries["projects"])
    requires k in plist.entries["projects"].entries && CString(k) != ""
    ensures
      IsReading(types, Stored(types, rows, build, project, plist).rows, BuildOf(plist.entries, build),
        Some(CString(k)), read) <==>
      Recovered(types, EntriesOf(plist.entries["projects"].entries[k]), read)
  {
    ProjectHolds(types, rows, build, project, plist, k);
    HoldsReads(types, Stored(types, rows, build, project, plist).rows, BuildOf(plist.entries, build),
      Some(CString(k)), EntriesOf(plist.entries["projects"].entries[k]), read);
  }

  /** A project without a name is stored under its own slots but read from those of the build. */
  lemma NamelessIsReadAsTheBuild(types: Types, rows: Rows, build: Build, q: Property, r: Option<Plist>)
    requires q in types && q in PropNames(rows, build, Some(""))
    requires HasValue(types[q], At(rows, Slot(build, None, q)))
    ensures CanReadAt(types, rows, build, Some(""), q, r) <==> CanRead(types[q], At(rows, Slot(build, None, q)), r)
  {
    assert Query(build, "", q) == Slot(build, None, q);
    OwnIsRead(types, rows, build, "", q, r);
  }

  // ------------------------------------------------------------- what comes back as it was

  /** An empty array or dictionary has no rows. */
  predicate Empty(v: Plist) {
    (v.Arr? && v.items == []) || (v.Dict? && v.entries == map[])
  }

  lemma KeptComesBack(t: Type, v: Plist, r: Option<Plist>)
    requires Storable(v) && Matches(t, v) && ComesBackAs(t, v, r)
    ensures Kept(t, v) ==> r.Some? && SameValue(v, r.value)
    ensures Empty(v) ==> r.None?
  {
    ValueReads(t, v, r);
    ValueIsKept(t, v);
  }

  ghost predicate AllKept(types: Types, entries: map<string, Plist>) {
    forall q :: q in entries && !Pseudo(q) ==>
      q in types && Matches(types[q], entries[q]) && (Empty(entries[q]) || Kept(types[q], entries[q]))
  }

  /** Of such values reading gives each one that is not empty, as it was. */
  lemma KeptIsRecovered(types: Types, entries: map<string, Plist>, read: map<Property, Plist>)
    requires AllKept(types, entries) && Recovered(types, entries, read)
    ensures read.Keys == set q | q in entries && !Pseudo(q) && !Empty(entries[q])
    ensures forall q :: q in read ==> SameValue(entries[q], read[q])
  {
    forall q
      ensures q in read <==> q in entries && !Pseudo(q) && !Empty(entries[q])
      ensures q in read ==> SameValue(entries[q], read[q])
    {
      assert ComesBack(types, entries, q, Find(read, q));
      if q in entries && !Pseudo(q) {
        KeptComesBack(types[q], entries[q], Find(read, q));
      }
    }
  }

  lemma OneIsRecovered(types: Types, q: Property, v: Plist, w: Plist, read: map<Property, Plist>)
    requires q in types && !Pseudo(q) && Storable(v) && Matches(types[q], v)
    requires ComesBackAs(types[q], v, Find(read, q)) <==> Find(read, q) == Some(w)
    ensures Recovered(types, map[q := v], read) <==> read == map[q := w]
  {
    var entries := map[q := v];
    if Recovered(types, entries, read) {
      forall p
        ensures Find(read, p) == if p == q then Some(w) else None
      {
        assert ComesBack(types, entries, p, Find(read, p));
      }
      assert Find(read, q) == Some(w);
      forall p
        ensures p in read <==> p == q
      {
        assert Find(read, p) == if p == q then Some(w) else None;
      }
    }
  }

  lemma OnePropertyIsSet(types: Types, build: Build, project: Option<Project>, q: Property, v: Plist)
    requires q in types && !Pseudo(q) && Storable(v) && Matches(types[q], v)
    ensures SetOwn(types, map[], build, project, map[q := v]).ok
  {
    SortedUnique([q], {q});
    assert map[q := v].Keys == {q};
    assert SetProps(types, map[], build, project, map[q := v], [q], 0).ok;
  }

  lemma OneReadsBack(types: Types, build: Build, project: Project, q: Property, v: Plist,
                     read: map<Property, Plist>)
    requires Declared(types) && q in types && Storable(v) && Matches(types[q], v)
    requires q != "name" && CString(project) != ""
    ensures var plist := Dict(map[q := v]);
      && Sane(plist) && Stored(types, map[], build, Some(project), plist).ok
      && var after := Stored(types, map[], build, Some(project), plist).rows;
         (IsReading(types, after, CString(build), Some(CString(project)), read) <==>
            Recovered(types, map[q := v], read))
  {
    var plist := Dict(map[q := v]);
    OnePropertyIsSet(types, CString(build), Some(CString(project)), q, v);
    ReadsBack(types, map[], build, Some(project), plist, read);
  }

  // ------------------------------------------------------------- inheritance and aliases as stored

  /** What a build inherits from, as lookups see it, is what was stored, and nothing if nothing was. */
  lemma InheritsAsStored(types: Types, rows: Rows, build: Build, plist: Plist, b: string,
                         inherits: Inheritance.Inherits)
    requires Sane(plist) && BelongsTo(plist, build, None, b, None) && Stored(types, rows, build, None, plist).ok
    requires "inherits" in plist.entries ==> plist.entries["inherits"].Str?
    requires IsInheritance(Stored(types, rows, build, None, plist).rows, inherits)
    ensures Inheritance.Parent(inherits, CString(b)) ==
      if "inherits" in plist.entries then Some(CString(plist.entries["inherits"].text)) else None
  {
    OwnHoldsThere(types, rows, build, None, plist, b, None);
    var after := Stored(types, rows, build, None, plist).rows;
    assert !Pseudo("inherits") && Query(CString(b), "", "inherits") == Slot(CString(b), None, "inherits");
    OneString(At(after, Slot(CString(b), None, "inherits")), Inheritance.Parent(inherits, CString(b)));
  }

  lemma OneString(cells: seq<Cell>, r: Option<string>)
    requires |cells| <= 1 && StringReads(cells, r)
    ensures r == if cells == [] then None else Some(cells[0].value)
  {
    if cells != [] {
      var c :| c in cells && c.value == r.value;
    }
  }

  /** And so it is with the project that another one is an alias of. */
  lemma AliasAsStored(types: Types, rows: Rows, build: Build, plist: Plist, b: string, p: string, property: Property,
                      store: Lookup.Store<Plist>)
    requires Sane(plist) && BelongsTo(plist, build, Some(p), b, Some(p)) && CString(p) != ""
    requires !Inside(plist, Some(CString(p))) && Stored(types, rows, build, Some(p), plist).ok
    requires "original" in plist.entries ==> plist.entries["original"].Str?
    requires property in types && IsStoreOf(types, Stored(types, rows, build, Some(p), plist).rows, property, store)
    ensures store.original(CString(b), CString(p)) ==
      if "original" in plist.entries then Some(CString(plist.entries["original"].text)) else None
  {
    OwnHoldsThere(types, rows, build, Some(p), plist, b, Some(p));
    var after := Stored(types, rows, build, Some(p), plist).rows;
    var slot := Slot(CString(b), Some(CString(p)), "original");
    assert !Pseudo("original") && Query(CString(b), CString(p), "original") == slot;
    OneString(At(after, slot), store.original(CString(b), CString(p)));
  }
}
