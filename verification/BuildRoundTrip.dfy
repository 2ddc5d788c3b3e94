/**
 "darwinxref edit" of a whole build (darwinxref/plugins/edit.c, darwinxref/DBDataStore.c): the build is
 read from the tables and printed behind a comment; the text is read and stored again.
 */
module BuildRoundTrip {
  import opened CStrings
  import opened KeptRows
  import opened PropertyGroups
  import opened PropertyList
  import opened PropertyQueries
  import opened PropertyReadback
  import opened PropertyStore
  import opened PropertyValues
  import opened StoredProjects
  import opened TextOrder
  import opened Wrappers
  import Exact = PlistExact
  import Reader = PlistReader
  import Text = PlistText

  // ------------------------------------------------------------- the plist of a build

  /** The projects of one build that are another name for one of these. */
  function AliasesIn(rows: Rows, build: Build, projects: set<Project>): set<Project> {
    set slot |
      && slot in rows && slot.build == build && slot.property == "original" && slot.project.Some?
      && Values(rows[slot]) * projects != {} ::
      slot.project.value
  }

  /** DBCopyOneProjectNames: the projects of a build, and their aliases in the builds it inherits from. */
  function OneProjectNames(rows: Rows, build: Build, chain: seq<Build>): set<Project> {
    ProjectsIn(rows, build) + set b, p | b in chain && p in AliasesIn(rows, b, ProjectsIn(rows, build)) :: p
  }

  /** The project has rows in the build. */
  ghost predicate HasRowsIn(rows: Rows, build: Build, p: Project) {
    exists q :: At(rows, Slot(build, Some(p), q)) != []
  }

  /** A row of the build says that p is another name for some project that has rows in `of`. */
  ghost predicate NamesAnother(rows: Rows, build: Build, p: Project, of: Build) {
    exists c :: c in At(rows, Slot(build, Some(p), "original")) && HasRowsIn(rows, of, c.value)
  }

  lemma ProjectsHaveRows(rows: Rows, build: Build, p: Project)
    ensures p in ProjectsIn(rows, build) <==> HasRowsIn(rows, build, p)
  {
    if q :| At(rows, Slot(build, Some(p), q)) != [] {
      var slot := Slot(build, Some(p), q);
      assert slot in rows && rows[slot] != [] && slot.project.value == p;
    }
    if p in ProjectsIn(rows, build) {
      var slot :| slot in rows && rows[slot] != [] && slot.build == build && slot.project == Some(p);
      assert At(rows, Slot(build, Some(p), slot.property)) != [];
    }
  }

  lemma AliasesName(rows: Rows, build: Build, p: Project, of: Build)
    ensures p in AliasesIn(rows, build, ProjectsIn(rows, of)) <==> NamesAnother(rows, build, p, of)
  {
    var slot := Slot(build, Some(p), "original");
    if c :| c in At(rows, slot) && HasRowsIn(rows, of, c.value) {
      ProjectsHaveRows(rows, of, c.value);
      assert c.value in Values(rows[slot]) * ProjectsIn(rows, of);
      assert slot in rows && slot.project.value == p;
    }
    if p in AliasesIn(rows, build, ProjectsIn(rows, of)) {
      assert slot in rows && Values(rows[slot]) * ProjectsIn(rows, of) != {};
      var v :| v in Values(rows[slot]) * ProjectsIn(rows, of);
      var c :| c in rows[slot] && c.value == v;
      ProjectsHaveRows(rows, of, v);
      assert c in At(rows, slot);
    }
  }

  /** The projects of a build are those with rows in it, and those that a build of the chain says to be
      another name for one of them. */
  lemma NamesAre(rows: Rows, build: Build, chain: seq<Build>, p: Project)
    ensures p in OneProjectNames(rows, build, chain) <==>
      HasRowsIn(rows, build, p) || exists b :: b in chain && NamesAnother(rows, b, p, build)
  {
    ProjectsHaveRows(rows, build, p);
    forall b
      ensures p in AliasesIn(rows, b, ProjectsIn(rows, build)) <==> NamesAnother(rows, b, p, build)
    {
      AliasesName(rows, b, p, build);
    }
  }

  /** DBCopyGroupNames */
  function GroupNames(groups: Groups, build: Build): set<string> {
    set slot | slot in groups && groups[slot] != [] && slot.build == build :: slot.name
  }

  function Strings(texts: seq<string>): (items: seq<Plist>)
    ensures AllStrings(items) && Texts(items) == texts
  {
    var items: seq<Plist> := seq(|texts|, i requires 0 <= i < |texts| => Str(texts[i]));
    assert Texts(items) == texts;
    items
  }

  ghost function GroupDict(groups: Groups, build: Build): map<string, Plist> {
    map name | name in GroupNames(groups, build) :: Arr(Strings(ReadMembers(groups, build, name)))
  }

  function BuildPlist(build: Build, own: map<Property, Plist>, projects: map<Project, Plist>,
                      groups: map<string, Plist>): Plist {
    var entries := own["build" := Str(build)]["projects" := Dict(projects)];
    Dict(if groups == map[] then entries else entries["groups" := Dict(groups)])
  }

  ghost predicate AreReadings(types: Types, rows: Rows, build: Build, projects: map<Project, Plist>) {
    forall k :: k in projects ==>
      projects[k].Dict? && IsReading(types, rows, build, Some(k), projects[k].entries)
  }

  /** DBCopyBuildPlist: plist is what may be read of a build that inherits along this chain. */
  ghost predicate IsBuildPlist(types: Types, tables: Tables, build: Build, chain: seq<Build>, plist: Plist) {
    exists own: map<Property, Plist>, projects: map<Project, Plist> ::
      && IsReading(types, tables.rows, build, None, own)
      && projects.Keys == OneProjectNames(tables.rows, build, chain)
      && AreReadings(types, tables.rows, build, projects)
      && plist == BuildPlist(build, own, projects, GroupDict(tables.groups, build))
  }

  // ------------------------------------------------------------- what the tables have to be like

  ghost predicate ReadableSlot(types: Types, slot: Slot, cells: seq<Cell>) {
    slot.property in types && HasValue(types[slot.property], cells) && slot.project != Some("")
  }

  /** The rows of a build are of declared properties and can be read as values, and no project has an
      empty name. */
  ghost predicate BuildReadable(types: Types, rows: Rows, build: Build) {
    forall slot :: slot in rows && rows[slot] != [] && slot.build == build ==> ReadableSlot(types, slot, rows[slot])
  }

  /** And they are those of values that come back as they were. */
  ghost predicate ProjectKept(types: Types, rows: Rows, build: Build, project: Option<Project>) {
    forall q :: At(rows, Slot(build, project, q)) != [] ==>
      q in types && KeptCells(types[q], At(rows, Slot(build, project, q)))
  }

  ghost predicate BuildKept(types: Types, rows: Rows, build: Build) {
    forall project :: ProjectKept(types, rows, build, project)
  }

  /** Text in the tables has been a C string. */
  ghost predicate PlainNames(tables: Tables) {
    && (forall slot :: slot in tables.rows && slot.project.Some? ==> NUL !in slot.project.value)
    && (forall slot :: slot in tables.groups ==> NUL !in slot.name)
    && (forall slot, m :: slot in tables.groups && m in tables.groups[slot] ==> NUL !in m)
  }

  // ------------------------------------------------------------- what is read of such tables

  /** These rows are those of the value, in some order, and there are none if there is no value. */
  ghost predicate RowsOf(types: Types, q: Property, cells: seq<Cell>, r: Option<Plist>) {
    match r
    case None => cells == []
    case Some(v) => q in types && GivesRows(types[q], cells, v)
  }

  ghost predicate ReadFully(types: Types, rows: Rows, build: Build, project: Option<Project>,
                            read: map<Property, Plist>) {
    forall q :: RowsOf(types, q, At(rows, Slot(build, project, q)), Find(read, q))
  }

  /** What is read of a property is read of its own rows. */
  lemma SlotIsRead(types: Types, rows: Rows, build: Build, project: Option<Project>, q: Property, r: Option<Plist>)
    requires BuildReadable(types, rows, build)
    ensures var cells := At(rows, Slot(build, project, q));
      CanReadAt(types, rows, build, project, q, r) <==>
        if cells == [] then r.None? else q in types && r.Some? && CanRead(types[q], cells, r)
  {
    var slot := Slot(build, project, q);
    assert slot in rows && rows[slot] != [] <==> slot.property in PropNames(rows, build, project);
    if q in PropNames(rows, build, project) {
      assert ReadableSlot(types, slot, rows[slot]);
      OwnIsRead(types, rows, build, NameOf(project), q, r);
      if CanRead(types[q], rows[slot], r) {
        ReadsAValue(types[q], rows[slot], r);
      }
    }
  }

  lemma SlotIsReadFully(types: Types, rows: Rows, build: Build, project: Option<Project>, q: Property, r: Option<Plist>)
    requires BuildReadable(types, rows, build) && ProjectKept(types, rows, build, project)
    requires CanReadAt(types, rows, build, project, q, r)
    ensures RowsOf(types, q, At(rows, Slot(build, project, q)), r)
  {
    var slot := Slot(build, project, q);
    SlotIsRead(types, rows, build, project, q, r);
    if At(rows, slot) != [] {
      KeptIsReadFully(types[q], rows[slot], r);
    }
  }

  lemma AllIsReadFully(types: Types, rows: Rows, build: Build, project: Option<Project>, read: map<Property, Plist>)
    requires BuildReadable(types, rows, build) && ProjectKept(types, rows, build, project)
    requires IsReading(types, rows, build, project, read)
    ensures ReadFully(types, rows, build, project, read)
  {
    forall q
      ensures RowsOf(types, q, At(rows, Slot(build, project, q)), Find(read, q))
    {
      assert CanReadAt(types, rows, build, project, q, Find(read, q));
      SlotIsReadFully(types, rows, build, project, q, Find(read, q));
    }
  }

  /** Any way to read one property is part of a way to read its project. */
  lemma CanReadProject(types: Types, rows: Rows, build: Build, project: Option<Project>, q: Property, v: Plist)
      returns (read: map<Property, Plist>)
    requires BuildReadable(types, rows, build)
    requires At(rows, Slot(build, project, q)) != [] ==>
      q in types && CanRead(types[q], At(rows, Slot(build, project, q)), Some(v))
    ensures IsReading(types, rows, build, project, read)
    ensures At(rows, Slot(build, project, q)) != [] ==> Find(read, q) == Some(v)
  {
    forall p | p in PropNames(rows, build, project)
      ensures p in types && SomeReading(types[p], At(rows, Slot(build, project, p))).Some?
    {
      var slot := Slot(build, project, p);
      assert slot in rows && rows[slot] != [] && ReadableSlot(types, slot, rows[slot]);
      ReadsAValue(types[p], rows[slot], SomeReading(types[p], rows[slot]));
    }
    read := map p | p in PropNames(rows, build, project) ::
      if p == q then v else SomeReading(types[p], At(rows, Slot(build, project, p))).value;
    forall p
      ensures CanReadAt(types, rows, build, project, p, Find(read, p))
      ensures At(rows, Slot(build, project, p)) != [] ==> p in PropNames(rows, build, project)
    {
      SlotIsRead(types, rows, build, project, p, Find(read, p));
      assert Slot(build, project, p) in rows && rows[Slot(build, project, p)] != [] <==>
        Slot(build, project, p).property in PropNames(rows, build, project);
    }
  }

  lemma CanReadSomeProject(types: Types, rows: Rows, build: Build, project: Option<Project>)
      returns (read: map<Property, Plist>)
    requires BuildReadable(types, rows, build)
    ensures IsReading(types, rows, build, project, read)
  {
    var q := "";
    var cells := At(rows, Slot(build, project, q));
    var v := Str("");
    if cells != [] {
      assert ReadableSlot(types, Slot(build, project, q), cells);
      var some := SomeReading(types[q], cells);
      ReadsAValue(types[q], cells, some);
      v := some.value;
    }
    read := CanReadProject(types, rows, build, project, q, v);
  }

  lemma {:induction false} CanReadProjects(types: Types, rows: Rows, build: Build, names: set<Project>)
      returns (projects: map<Project, Plist>)
    requires BuildReadable(types, rows, build)
    ensures projects.Keys == names && AreReadings(types, rows, build, projects)
    decreases names
  {
    if names == {} {
      projects := map[];
    } else {
      var k :| k in names;
      var rest := CanReadProjects(types, rows, build, names - {k});
      var read := CanReadSomeProject(types, rows, build, Some(k));
      projects := rest[k := Dict(read)];
    }
  }

  /** Such a build can be read. */
  lemma CanReadBuild(types: Types, tables: Tables, build: Build, chain: seq<Build>) returns (plist: Plist)
    requires BuildReadable(types, tables.rows, build)
    ensures IsBuildPlist(types, tables, build, chain, plist)
  {
    var own := CanReadSomeProject(types, tables.rows, build, None);
    var projects := CanReadProjects(types, tables.rows, build, OneProjectNames(tables.rows, build, chain));
    plist := BuildPlist(build, own, projects, GroupDict(tables.groups, build));
  }

  // ------------------------------------------------------------- storing it succeeds

  /** Entries of a plist that can be stored. */
  ghost predicate Settable(types: Types, entries: map<string, Plist>) {
    forall q :: q in entries && !Pseudo(q) ==> q in types && Storable(entries[q]) && Matches(types[q], entries[q])
  }

  lemma {:induction false} SetPropsSucceeds(types: Types, rows: Rows, build: Build, project: Option<Project>,
                                            entries: map<string, Plist>, keys: seq<Property>, n: nat)
    requires n <= |keys| && (forall i :: 0 <= i < |keys| ==> keys[i] in entries) && Settable(types, entries)
    ensures SetProps(types, rows, build, project, entries, keys, n).ok
  {
    if n == 0 {
    } else {
      SetPropsSucceeds(types, rows, build, project, entries, keys, n - 1);
    }
  }

  lemma SetOwnSucceeds(types: Types, rows: Rows, build: Build, project: Option<Project>, entries: map<string, Plist>)
    requires Settable(types, entries)
    ensures SetOwn(types, rows, build, project, entries).ok
  {
    var keys := Sorted(entries.Keys);
    SetPropsSucceeds(types, Dropped(rows, build, project, entries.Keys), build, project, entries, keys, |keys|);
  }

  /** A project that was read has properties only. */
  ghost predicate OnlyProperties(types: Types, plist: Plist) {
    plist.Dict? && (forall q :: q in plist.entries ==> !Pseudo(q) && q != "name") && Settable(types, plist.entries)
  }

  lemma OnlyPropertiesIsPlain(types: Types, plist: Plist)
    requires OnlyProperties(types, plist)
    ensures Sane(plist) && Plain(plist) && WellFormed(plist) && "groups" !in plist.entries
  {
    assert Pseudo("build") && Pseudo("projects") && Pseudo("groups");
  }

  ghost predicate AllOnlyProperties(types: Types, projects: map<Project, Plist>) {
    forall k :: k in projects ==> OnlyProperties(types, projects[k]) && NUL !in k
  }

  lemma ProjectsAreSane(types: Types, projects: map<Project, Plist>)
    requires AllOnlyProperties(types, projects)
    ensures AllSane(Dict(projects)) && AllPlain(Dict(projects))
  {
    forall k | k in projects
      ensures Sane(projects[k]) && Plain(projects[k])
    {
      OnlyPropertiesIsPlain(types, projects[k]);
    }
  }

  lemma ProjectSucceeds(types: Types, rows: Rows, build: Build, k: Project, plist: Plist)
    requires OnlyProperties(types, plist)
    ensures Sane(plist) && Stored(types, rows, build, Some(k), plist).ok
  {
    OnlyPropertiesIsPlain(types, plist);
    SetOwnSucceeds(types, rows, BuildOf(plist.entries, build), ProjectOf(plist.entries, Some(k)), plist.entries);
  }

  lemma {:induction false} ProjectsSucceed(types: Types, rows: Rows, build: Build, projects: Plist,
                                           names: seq<Project>, n: nat)
    requires AllSane(projects) && AreProjects(names, projects) && n <= |names|
    requires AllOnlyProperties(types, projects.entries)
    ensures SetProjects(types, rows, build, projects, names, n).ok
    decreases n
  {
    if n == 0 {
    } else {
      ProjectsSucceed(types, rows, build, projects, names, n - 1);
      var so := SetProjects(types, rows, build, projects, names, n - 1);
      ProjectSucceeds(types, so.rows, build, names[n - 1], projects.entries[names[n - 1]]);
    }
  }

  lemma AllProjectsSucceed(types: Types, rows: Rows, build: Build, projects: map<Project, Plist>)
    requires AllOnlyProperties(types, projects)
    ensures AllSane(Dict(projects)) && SetAllProjects(types, rows, build, Dict(projects)).ok
  {
    ProjectsAreSane(types, projects);
    var names := Sorted(Dict(projects).entries.Keys);
    ProjectsSucceed(types, rows, build, Dict(projects), names, |names|);
  }

  lemma BuildEntries(build: Build, own: map<Property, Plist>, projects: map<Project, Plist>, groups: map<string, Plist>)
    ensures var entries := BuildPlist(build, own, projects, groups).entries;
      && "build" in entries && entries["build"] == Str(build)
      && "projects" in entries && entries["projects"] == Dict(projects)
      && (groups != map[] ==> "groups" in entries && entries["groups"] == Dict(groups))
      && forall q :: !Pseudo(q) ==> Find(entries, q) == Find(own, q)
  {
  }

  lemma BuildIsSane(types: Types, build: Build, own: map<Property, Plist>, projects: map<Project, Plist>,
                    groups: map<string, Plist>)
    requires OnlyProperties(types, Dict(own)) && AllOnlyProperties(types, projects) && AreGroups(Dict(groups))
    ensures var plist := BuildPlist(build, own, projects, groups);
      && Sane(plist) && WellFormed(plist) && Settable(types, plist.entries)
      && "name" !in plist.entries && ("groups" in plist.entries <==> groups != map[])
  {
    var entries := BuildPlist(build, own, projects, groups).entries;
    BuildEntries(build, own, projects, groups);
    ProjectsAreSane(types, projects);
    assert Pseudo("groups") && !Pseudo("name");
    forall q | q in entries && !Pseudo(q)
      ensures q in types && Storable(entries[q]) && Matches(types[q], entries[q])
    {
      assert Find(entries, q) == Find(own, q);
    }
    assert Find(entries, "name") == Find(own, "name");
  }

  /** Storing the plist of a build succeeds. */
  lemma BuildSucceeds(types: Types, rows: Rows, build: Build, own: map<Property, Plist>,
                      projects: map<Project, Plist>, groups: map<string, Plist>)
    requires OnlyProperties(types, Dict(own)) && AllOnlyProperties(types, projects) && AreGroups(Dict(groups))
    ensures var plist := BuildPlist(build, own, projects, groups);
      Sane(plist) && Stored(types, rows, build, None, plist).ok
  {
    var plist := BuildPlist(build, own, projects, groups);
    BuildIsSane(types, build, own, projects, groups);
    BuildEntries(build, own, projects, groups);
    ProjectsAreSane(types, projects);
    var b := BuildOf(plist.entries, build);
    var after := SetOwn(types, rows, b, None, plist.entries);
    SetOwnSucceeds(types, rows, b, None, plist.entries);
    AllProjectsSucceed(types, after.rows, b, projects);
    assert StoredAt(types, rows, b, None, plist) == SetAllProjects(types, after.rows, b, plist.entries["projects"]);
  }

  // ------------------------------------------------------------- the rows afterwards

  lemma ProjectTouches(types: Types, build: Build, k: Project, plist: Plist)
    requires OnlyProperties(types, plist) && NUL !in build && NUL !in k
    ensures Sane(plist) && Touched(build, Some(k), plist) == {(build, Some(k))}
  {
    OnlyPropertiesIsPlain(types, plist);
  }

  lemma ProjectsTouch(types: Types, build: Build, projects: map<Project, Plist>, pair: Pair)
    requires AllOnlyProperties(types, projects) && NUL !in build
    ensures AllSane(Dict(projects))
    ensures pair in TouchedInside(build, Dict(projects)) ==>
      pair.0 == build && pair.1.Some? && pair.1.value in projects
  {
    ProjectsAreSane(types, projects);
    if pair in TouchedInside(build, Dict(projects)) {
      var k :| k in projects && pair in Touched(build, Some(k), projects[k]);
      ProjectTouches(types, build, k, projects[k]);
    }
  }

  /** The plist of a build as it was read, with what its storing relies on. */
  ghost predicate IsRead(types: Types, build: Build, own: map<Property, Plist>, projects: map<Project, Plist>,
                         groups: map<string, Plist>, plist: Plist) {
    && NUL !in build && plist == BuildPlist(build, own, projects, groups)
    && OnlyProperties(types, Dict(own)) && AllOnlyProperties(types, projects) && AreGroups(Dict(groups))
  }

  lemma OwnRowsAfter(types: Types, rows: Rows, build: Build, own: map<Property, Plist>, projects: map<Project, Plist>,
                     groups: map<string, Plist>, plist: Plist)
    requires IsRead(types, build, own, projects, groups, plist)
    ensures Sane(plist) && Holds(types, Stored(types, rows, build, None, plist).rows, build, None, plist.entries)
  {
    BuildSucceeds(types, rows, build, own, projects, groups);
    BuildIsSane(types, build, own, projects, groups);
    BuildEntries(build, own, projects, groups);
    ProjectsTouch(types, build, projects, (build, None));
    OwnHolds(types, rows, build, None, plist);
  }

  lemma ProjectRowsAfter(types: Types, rows: Rows, build: Build, own: map<Property, Plist>,
                         projects: map<Project, Plist>, groups: map<string, Plist>, plist: Plist, k: Project)
    requires IsRead(types, build, own, projects, groups, plist) && k in projects
    ensures Sane(plist)
    ensures Holds(types, Stored(types, rows, build, None, plist).rows, build, Some(k), EntriesOf(projects[k]))
  {
    BuildSucceeds(types, rows, build, own, projects, groups);
    BuildIsSane(types, build, own, projects, groups);
    BuildEntries(build, own, projects, groups);
    ProjectsAreSane(types, projects);
    ProjectHolds(types, rows, build, None, plist, k);
  }

  lemma OtherRowsAfter(types: Types, rows: Rows, build: Build, own: map<Property, Plist>,
                       projects: map<Project, Plist>, groups: map<string, Plist>, plist: Plist, slot: Slot)
    requires IsRead(types, build, own, projects, groups, plist)
    requires slot.build != build || (slot.project.Some? && slot.project.value !in projects)
    ensures Sane(plist) && Find(Stored(types, rows, build, None, plist).rows, slot) == Find(rows, slot)
  {
    BuildIsSane(types, build, own, projects, groups);
    BuildEntries(build, own, projects, groups);
    ProjectsTouch(types, build, projects, (slot.build, slot.project));
    OthersAreKept(types, rows, build, None, plist, slot);
  }

  lemma HeldRows(types: Types, before: Rows, after: Rows, build: Build, project: Option<Project>,
                 read: map<Property, Plist>, entries: map<string, Plist>, q: Property)
    requires ReadFully(types, before, build, project, read) && Holds(types, after, build, project, entries)
    requires !Pseudo(q) && Find(entries, q) == Find(read, q)
    ensures multiset(At(after, Slot(build, project, q))) == multiset(At(before, Slot(build, project, q)))
  {
    assert RowsOf(types, q, At(before, Slot(build, project, q)), Find(read, q));
    assert At(after, Slot(build, project, q)) == if q in entries then Cells(entries[q]) else [];
  }

  ghost predicate AllReadFully(types: Types, rows: Rows, build: Build, own: map<Property, Plist>,
                               projects: map<Project, Plist>) {
    && ReadFully(types, rows, build, None, own)
    && forall k :: k in projects ==> ReadFully(types, rows, build, Some(k), EntriesOf(projects[k]))
  }

  /** Each property has the rows it had, in some order. */
  lemma SlotAfter(types: Types, rows: Rows, build: Build, own: map<Property, Plist>,
                  projects: map<Project, Plist>, groups: map<string, Plist>, plist: Plist, slot: Slot)
    requires IsRead(types, build, own, projects, groups, plist) && !Pseudo(slot.property)
    requires AllReadFully(types, rows, build, own, projects)
    ensures Sane(plist)
    ensures multiset(At(Stored(types, rows, build, None, plist).rows, slot)) == multiset(At(rows, slot))
  {
    BuildIsSane(types, build, own, projects, groups);
    var after := Stored(types, rows, build, None, plist).rows;
    if slot.build != build || (slot.project.Some? && slot.project.value !in projects) {
      OtherRowsAfter(types, rows, build, own, projects, groups, plist, slot);
    } else if slot.project.None? {
      OwnRowsAfter(types, rows, build, own, projects, groups, plist);
      BuildEntries(build, own, projects, groups);
      HeldRows(types, rows, after, build, None, own, plist.entries, slot.property);
    } else {
      var k := slot.project.value;
      ProjectRowsAfter(types, rows, build, own, projects, groups, plist, k);
      HeldRows(types, rows, after, build, Some(k), EntriesOf(projects[k]), EntriesOf(projects[k]), slot.property);
    }
  }

  // ------------------------------------------------------------- the groups afterwards

  ghost predicate PlainGroups(groups: Groups, build: Build) {
    forall slot :: slot in groups && slot.build == build ==>
      NUL !in slot.name && forall m :: m in groups[slot] ==> NUL !in m
  }

  lemma GroupDictIsPlain(groups: Groups, build: Build)
    ensures AreGroups(Dict(GroupDict(groups, build)))
  {
  }

  lemma StringsAreMembers(texts: seq<string>)
    requires forall m :: m in texts ==> NUL !in m
    ensures Members(Strings(texts)) == texts
  {
    var items := Strings(texts);
    assert forall i :: 0 <= i < |texts| ==> Texts(items)[i] == texts[i] && texts[i] in texts;
  }

  lemma MembersAgain(groups: Groups, build: Build, name: string)
    requires PlainGroups(groups, build)
    ensures AreGroups(Dict(GroupDict(groups, build)))
    ensures ToSet(MembersIn(Dict(GroupDict(groups, build)), name)) == ToSet(At(groups, GroupSlot(build, name)))
  {
    var dict := GroupDict(groups, build);
    GroupDictIsPlain(groups, build);
    var slot := GroupSlot(build, name);
    assert forall k :: k in dict ==> NUL !in k;
    if slot in groups && groups[slot] != [] {
      assert slot.name in GroupNames(groups, build);
      OwnMembers(Dict(dict), name);
      StringsAreMembers(ReadMembers(groups, build, name));
    } else {
      assert name !in dict;
    }
  }

  lemma NoGroupsInside(types: Types, build: Build, projects: map<Project, Plist>)
    requires AllOnlyProperties(types, projects)
    ensures AllSane(Dict(projects)) && GroupBuildsInside(build, Dict(projects)) == {}
  {
    ProjectsAreSane(types, projects);
    forall k | k in projects
      ensures GroupBuilds(build, projects[k]) == {}
    {
      OnlyPropertiesIsPlain(types, projects[k]);
    }
  }

  /** Each group has the members it had. */
  lemma GroupAfter(types: Types, tables: Tables, build: Build, own: map<Property, Plist>,
                   projects: map<Project, Plist>, plist: Plist, slot: GroupSlot)
    requires IsRead(types, build, own, projects, GroupDict(tables.groups, build), plist)
    requires PlainGroups(tables.groups, build)
    ensures Sane(plist)
    ensures ToSet(At(Grouped(types, tables.rows, tables.groups, build, None, plist), slot)) ==
      ToSet(At(tables.groups, slot))
  {
    var dict := GroupDict(tables.groups, build);
    BuildIsSane(types, build, own, projects, dict);
    BuildEntries(build, own, projects, dict);
    NoGroupsInside(types, build, projects);
    if slot.build == build && dict != map[] {
      GroupsAreReplaced(types, tables.rows, tables.groups, build, None, plist, slot.name);
      MembersAgain(tables.groups, build, slot.name);
    } else {
      OtherGroupsAreKept(types, tables.rows, tables.groups, build, None, plist, slot);
    }
  }

  // ------------------------------------------------------------- the text in between

  const TITLE := "// All projects for build "

  /** What the editor is given. */
  ghost function EditText(build: Build, plist: Plist): string {
    TITLE + build + ("\n" + Text.Written(plist, 0))
  }

  const PROJECT_TITLE := "// Project "

  const OF_BUILD := " for build "

  /** And for a single project. */
  ghost function ProjectText(build: Build, project: Project, plist: Plist): string {
    PROJECT_TITLE + (project + (OF_BUILD + build)) + ("\n" + Text.Written(plist, 0))
  }

  predicate OnOneLine(s: string) {
    forall i :: 0 <= i < |s| ==> !Reader.LineEnd(s[i])
  }

  /** The title is a comment, as long as it fits on a line. */
  lemma TitleIsSkipped(title: string, rest: string, t: string)
    requires Reader.OpensLine(title) && OnOneLine(title) && OnOneLine(rest)
    ensures Reader.ReadPlist(title + rest + ("\n" + t)) == Reader.ReadPlist(t)
  {
    Reader.CommentIsSkipped(title + rest, t);
  }

  // ------------------------------------------------------------- the whole round trip

  lemma ReadingGivesProperties(types: Types, rows: Rows, build: Build, project: Option<Project>,
                               read: map<Property, Plist>)
    requires Declared(types) && "name" !in types && BuildReadable(types, rows, build)
    requires IsReading(types, rows, build, project, read)
    ensures OnlyProperties(types, Dict(read))
  {
    forall q | q in read
      ensures !Pseudo(q) && q != "name" && q in types && Storable(read[q]) && Matches(types[q], read[q])
    {
      assert CanReadAt(types, rows, build, project, q, Find(read, q));
      SlotIsRead(types, rows, build, project, q, Find(read, q));
    }
  }

  lemma BuildIsRead(types: Types, tables: Tables, build: Build, chain: seq<Build>, own: map<Property, Plist>,
                    projects: map<Project, Plist>, plist: Plist)
    requires Declared(types) && "name" !in types && NUL !in build
    requires BuildReadable(types, tables.rows, build) && PlainNames(tables)
    requires IsReading(types, tables.rows, build, None, own) && AreReadings(types, tables.rows, build, projects)
    requires projects.Keys == OneProjectNames(tables.rows, build, chain)
    requires plist == BuildPlist(build, own, projects, GroupDict(tables.groups, build))
    ensures IsRead(types, build, own, projects, GroupDict(tables.groups, build), plist)
  {
    ReadingGivesProperties(types, tables.rows, build, None, own);
    GroupDictIsPlain(tables.groups, build);
    forall k | k in projects
      ensures OnlyProperties(types, projects[k]) && NUL !in k
    {
      ReadingGivesProperties(types, tables.rows, build, Some(k), projects[k].entries);
      assert k in OneProjectNames(tables.rows, build, chain);
    }
  }

  lemma BuildIsReadFully(types: Types, tables: Tables, build: Build, own: map<Property, Plist>,
                         projects: map<Project, Plist>)
    requires BuildReadable(types, tables.rows, build) && BuildKept(types, tables.rows, build)
    requires IsReading(types, tables.rows, build, None, own) && AreReadings(types, tables.rows, build, projects)
    ensures AllReadFully(types, tables.rows, build, own, projects)
  {
    assert ProjectKept(types, tables.rows, build, None);
    AllIsReadFully(types, tables.rows, build, None, own);
    forall k | k in projects
      ensures ReadFully(types, tables.rows, build, Some(k), EntriesOf(projects[k]))
    {
      assert ProjectKept(types, tables.rows, build, Some(k));
      AllIsReadFully(types, tables.rows, build, Some(k), projects[k].entries);
    }
  }

  /** The same rows for every property, in some order, and the same members in every group. */
  ghost predicate SameTables(before: Tables, after: Tables) {
    && (forall slot: Slot :: !Pseudo(slot.property) ==>
          multiset(At(after.rows, slot)) == multiset(At(before.rows, slot)))
    && (forall slot: GroupSlot :: ToSet(At(after.groups, slot)) == ToSet(At(before.groups, slot)))
  }

  /** The tables after a plist was stored. */
  ghost function TablesAfter(types: Types, tables: Tables, build: Build, project: Option<Project>, plist: Plist): Tables
    requires Sane(plist)
  {
    Tables(Stored(types, tables.rows, build, project, plist).rows,
      Grouped(types, tables.rows, tables.groups, build, project, plist))
  }

  /** Storing it succeeds and leaves the tables as they were. */
  ghost predicate Returns(types: Types, tables: Tables, build: Build, project: Option<Project>, plist: Plist) {
    && Sane(plist) && Stored(types, tables.rows, build, project, plist).ok
    && SameTables(tables, TablesAfter(types, tables, build, project, plist))
  }

  lemma EditedTables(types: Types, tables: Tables, build: Build, own: map<Property, Plist>,
                     projects: map<Project, Plist>, plist: Plist)
    requires IsRead(types, build, own, projects, GroupDict(tables.groups, build), plist)
    requires AllReadFully(types, tables.rows, build, own, projects) && PlainNames(tables)
    ensures Returns(types, tables, build, None, plist)
  {
    BuildSucceeds(types, tables.rows, build, own, projects, GroupDict(tables.groups, build));
    var after := TablesAfter(types, tables, build, None, plist);
    forall slot: Slot | !Pseudo(slot.property)
      ensures multiset(At(after.rows, slot)) == multiset(At(tables.rows, slot))
    {
      SlotAfter(types, tables.rows, build, own, projects, GroupDict(tables.groups, build), plist, slot);
    }
    forall slot: GroupSlot
      ensures ToSet(At(after.groups, slot)) == ToSet(At(tables.groups, slot))
    {
      GroupAfter(types, tables, build, own, projects, plist, slot);
    }
  }

  lemma KeptReturns(types: Types, tables: Tables, build: Build, chain: seq<Build>, plist: Plist)
    requires Declared(types) && "name" !in types && NUL !in build
    requires BuildReadable(types, tables.rows, build) && PlainNames(tables) && BuildKept(types, tables.rows, build)
    requires IsBuildPlist(types, tables, build, chain, plist)
    ensures Returns(types, tables, build, None, plist)
  {
    var own: map<Property, Plist>, projects: map<Project, Plist> :|
      && IsReading(types, tables.rows, build, None, own)
      && projects.Keys == OneProjectNames(tables.rows, build, chain)
      && AreReadings(types, tables.rows, build, projects)
      && plist == BuildPlist(build, own, projects, GroupDict(tables.groups, build));
    BuildIsRead(types, tables, build, chain, own, projects, plist);
    BuildIsReadFully(types, tables, build, own, projects);
    EditedTables(types, tables, build, own, projects, plist);
  }

  // ------------------------------------------------------------- and exactly when it does

  lemma ChangingSlot(types: Types, rows: Rows, build: Build, project: Option<Project>) returns (slot: Slot)
    requires BuildReadable(types, rows, build) && !ProjectKept(types, rows, build, project)
    ensures slot in rows && rows[slot] != [] && slot.build == build && slot.project == project
    ensures slot.property in types && !KeptCells(types[slot.property], rows[slot])
  {
    var q :| At(rows, Slot(build, project, q)) != [] &&
      !(q in types && KeptCells(types[q], At(rows, Slot(build, project, q))));
    slot := Slot(build, project, q);
    assert ReadableSlot(types, slot, rows[slot]);
  }

  lemma EmptyMultiset(cells: seq<Cell>)
    ensures multiset(cells) == multiset{} <==> cells == []
  {
    assert cells != [] ==> cells[0] in multiset(cells);
  }

  /** A reading that gives other rows. */
  lemma OtherReading(types: Types, rows: Rows, build: Build, slot: Slot) returns (v: Plist)
    requires BuildReadable(types, rows, build) && slot in rows && rows[slot] != [] && slot.build == build
    requires slot.property in types && !KeptCells(types[slot.property], rows[slot])
    ensures CanRead(types[slot.property], rows[slot], Some(v)) && !GivesRows(types[slot.property], rows[slot], v)
  {
    var t, cells := types[slot.property], rows[slot];
    RowsAreKept(t, cells);
    var r :| CanRead(t, cells, r) && !(r.Some? && GivesRows(t, cells, r.value));
    assert ReadableSlot(types, slot, cells);
    ReadsAValue(t, cells, r);
    v := r.value;
  }

  lemma ProjectsWith(types: Types, rows: Rows, build: Build, names: set<Project>, k: Project, q: Property, v: Plist)
      returns (projects: map<Project, Plist>)
    requires BuildReadable(types, rows, build) && k in names
    requires At(rows, Slot(build, Some(k), q)) != [] && q in types
    requires CanRead(types[q], At(rows, Slot(build, Some(k), q)), Some(v))
    ensures AreReadings(types, rows, build, projects) && projects.Keys == names
    ensures Find(projects[k].entries, q) == Some(v)
  {
    projects := CanReadProjects(types, rows, build, names);
    var read := CanReadProject(types, rows, build, Some(k), q, v);
    projects := projects[k := Dict(read)];
  }

  /** The plist says that this slot reads as v. */
  ghost predicate SaysAt(own: map<Property, Plist>, projects: map<Project, Plist>, slot: Slot, v: Plist) {
    match slot.project
    case None => Find(own, slot.property) == Some(v)
    case Some(k) => k in projects && projects[k].Dict? && Find(projects[k].entries, slot.property) == Some(v)
  }

  /** A plist of the build that has this reading. */
  lemma PlistWith(types: Types, tables: Tables, build: Build, chain: seq<Build>, slot: Slot, v: Plist)
      returns (own: map<Property, Plist>, projects: map<Project, Plist>)
    requires BuildReadable(types, tables.rows, build)
    requires slot in tables.rows && tables.rows[slot] != [] && slot.build == build && slot.property in types
    requires CanRead(types[slot.property], tables.rows[slot], Some(v))
    ensures IsReading(types, tables.rows, build, None, own) && AreReadings(types, tables.rows, build, projects)
    ensures projects.Keys == OneProjectNames(tables.rows, build, chain) && SaysAt(own, projects, slot, v)
  {
    var rows, names := tables.rows, OneProjectNames(tables.rows, build, chain);
    assert slot == Slot(build, slot.project, slot.property);
    match slot.project {
      case None =>
        own := CanReadProject(types, rows, build, None, slot.property, v);
        projects := CanReadProjects(types, rows, build, names);
      case Some(k) =>
        own := CanReadSomeProject(types, rows, build, None);
        assert k in ProjectsIn(rows, build);
        projects := ProjectsWith(types, rows, build, names, k, slot.property, v);
    }
  }

  lemma OtherReadingChanges(types: Types, tables: Tables, build: Build, own: map<Property, Plist>,
                            projects: map<Project, Plist>, plist: Plist, slot: Slot, v: Plist)
    requires IsRead(types, build, own, projects, GroupDict(tables.groups, build), plist)
    requires slot.build == build && slot.property in types && !Pseudo(slot.property)
    requires SaysAt(own, projects, slot, v)
    requires !GivesRows(types[slot.property], At(tables.rows, slot), v)
    ensures !Returns(types, tables, build, None, plist)
  {
    var groups := GroupDict(tables.groups, build);
    var after := TablesAfterRead(types, tables, build, own, projects, plist);
    match slot.project {
      case None =>
        OwnRowsAfter(types, tables.rows, build, own, projects, groups, plist);
        BuildEntries(build, own, projects, groups);
      case Some(k) =>
        ProjectRowsAfter(types, tables.rows, build, own, projects, groups, plist, k);
    }
    assert slot == Slot(build, slot.project, slot.property);
    assert At(after, slot) == Cells(v);
  }

  lemma TablesAfterRead(types: Types, tables: Tables, build: Build, own: map<Property, Plist>,
                        projects: map<Project, Plist>, plist: Plist) returns (after: Rows)
    requires IsRead(types, build, own, projects, GroupDict(tables.groups, build), plist)
    ensures Sane(plist) && after == Stored(types, tables.rows, build, None, plist).rows
  {
    BuildIsSane(types, build, own, projects, GroupDict(tables.groups, build));
    after := Stored(types, tables.rows, build, None, plist).rows;
  }

  lemma ChangedReturnsOther(types: Types, tables: Tables, build: Build, chain: seq<Build>, slot: Slot)
      returns (plist: Plist)
    requires Declared(types) && "name" !in types && NUL !in build
    requires BuildReadable(types, tables.rows, build) && PlainNames(tables)
    requires slot in tables.rows && tables.rows[slot] != [] && slot.build == build
    requires slot.property in types && !KeptCells(types[slot.property], tables.rows[slot])
    ensures IsBuildPlist(types, tables, build, chain, plist) && !Returns(types, tables, build, None, plist)
  {
    var v := OtherReading(types, tables.rows, build, slot);
    var own, projects := PlistWith(types, tables, build, chain, slot, v);
    plist := BuildPlist(build, own, projects, GroupDict(tables.groups, build));
    BuildIsRead(types, tables, build, chain, own, projects, plist);
    OtherReadingChanges(types, tables, build, own, projects, plist, slot, v);
  }

  /** Editing a build without changing its text.  The text is read back exactly if no string in
      it looks like a comment or holds a NUL. */
  lemma EditTextReadsBack(build: Build, plist: Plist)
    requires OnOneLine(build)
    ensures Reader.ReadPlist(EditText(build, plist)) == Some(plist) <==> Reader.AllRestorable(plist, true)
  {
    assert OnOneLine(TITLE);
    TitleIsSkipped(TITLE, build, Text.Written(plist, 0));
    Exact.ReadsBackExactly(plist);
  }

  /** Storing what was read succeeds and leaves the tables as they were, whatever the queries return,
      exactly if the rows of the build are those of values that come back as they were. */
  lemma EditKeepsTables(types: Types, tables: Tables, build: Build, chain: seq<Build>)
    requires Declared(types) && "name" !in types && NUL !in build
    requires BuildReadable(types, tables.rows, build) && PlainNames(tables)
    ensures (forall plist :: IsBuildPlist(types, tables, build, chain, plist) ==>
               Returns(types, tables, build, None, plist))
            <==> BuildKept(types, tables.rows, build)
  {
    if BuildKept(types, tables.rows, build) {
      forall plist | IsBuildPlist(types, tables, build, chain, plist)
        ensures Returns(types, tables, build, None, plist)
      {
        KeptReturns(types, tables, build, chain, plist);
      }
    } else {
      var project :| !ProjectKept(types, tables.rows, build, project);
      var slot := ChangingSlot(types, tables.rows, build, project);
      var plist := ChangedReturnsOther(types, tables, build, chain, slot);
    }
  }

  // ------------------------------------------------------------- editing one project

  /** The text of a project is read back under the same condition. */
  lemma ProjectTextReadsBack(build: Build, project: Project, plist: Plist)
    requires OnOneLine(build) && OnOneLine(project)
    ensures Reader.ReadPlist(ProjectText(build, project, plist)) == Some(plist) <==> Reader.AllRestorable(plist, true)
  {
    assert OnOneLine(PROJECT_TITLE) && OnOneLine(OF_BUILD);
    TitleIsSkipped(PROJECT_TITLE, project + (OF_BUILD + build), Text.Written(plist, 0));
    Exact.ReadsBackExactly(plist);
  }

  /** Storing a single project: its own rows are as the plist says, all others stay. */
  lemma ProjectAfter(types: Types, tables: Tables, build: Build, k: Project, read: map<Property, Plist>)
    requires OnlyProperties(types, Dict(read)) && NUL !in build && NUL !in k
    ensures Sane(Dict(read)) && Stored(types, tables.rows, build, Some(k), Dict(read)).ok
    ensures var after := TablesAfter(types, tables, build, Some(k), Dict(read));
      && Holds(types, after.rows, build, Some(k), read)
      && (forall slot: Slot :: slot.build != build || slot.project != Some(k) ==>
            At(after.rows, slot) == At(tables.rows, slot))
      && forall slot: GroupSlot :: At(after.groups, slot) == At(tables.groups, slot)
  {
    var plist := Dict(read);
    OnlyPropertiesIsPlain(types, plist);
    ProjectSucceeds(types, tables.rows, build, k, plist);
    ProjectTouches(types, build, k, plist);
    OwnHolds(types, tables.rows, build, Some(k), plist);
    var after := TablesAfter(types, tables, build, Some(k), plist);
    forall slot: Slot | slot.build != build || slot.project != Some(k)
      ensures At(after.rows, slot) == At(tables.rows, slot)
    {
      OthersAreKept(types, tables.rows, build, Some(k), plist, slot);
      assert Find(after.rows, slot) == Find(tables.rows, slot);
    }
    forall slot: GroupSlot
      ensures At(after.groups, slot) == At(tables.groups, slot)
    {
      OtherGroupsAreKept(types, tables.rows, tables.groups, build, Some(k), plist, slot);
    }
  }

  lemma ProjectReturns(types: Types, tables: Tables, build: Build, k: Project, read: map<Property, Plist>)
    requires OnlyProperties(types, Dict(read)) && NUL !in build && NUL !in k
    ensures Returns(types, tables, build, Some(k), Dict(read)) <==>
      forall q :: !Pseudo(q) ==> RowsOf(types, q, At(tables.rows, Slot(build, Some(k), q)), Find(read, q))
  {
    ProjectAfter(types, tables, build, k, read);
    var after := TablesAfter(types, tables, build, Some(k), Dict(read));
    forall q | !Pseudo(q)
      ensures multiset(At(after.rows, Slot(build, Some(k), q))) == multiset(At(tables.rows, Slot(build, Some(k), q)))
        <==> RowsOf(types, q, At(tables.rows, Slot(build, Some(k), q)), Find(read, q))
    {
      assert At(after.rows, Slot(build, Some(k), q)) == if q in read then Cells(read[q]) else [];
      EmptyMultiset(At(tables.rows, Slot(build, Some(k), q)));
    }
    if forall q :: !Pseudo(q) ==> RowsOf(types, q, At(tables.rows, Slot(build, Some(k), q)), Find(read, q)) {
      forall slot: Slot | !Pseudo(slot.property)
        ensures multiset(At(after.rows, slot)) == multiset(At(tables.rows, slot))
      {
        assert slot == Slot(slot.build, slot.project, slot.property);
      }
    }
  }

  /** And so for a single project. */
  lemma EditKeepsProject(types: Types, tables: Tables, build: Build, k: Project)
    requires Declared(types) && "name" !in types && NUL !in build && NUL !in k
    requires BuildReadable(types, tables.rows, build)
    ensures (forall read :: IsReading(types, tables.rows, build, Some(k), read) ==>
               Returns(types, tables, build, Some(k), Dict(read)))
            <==> ProjectKept(types, tables.rows, build, Some(k))
  {
    forall read | IsReading(types, tables.rows, build, Some(k), read)
      ensures OnlyProperties(types, Dict(read))
      ensures Returns(types, tables, build, Some(k), Dict(read)) <==>
        forall q :: !Pseudo(q) ==> RowsOf(types, q, At(tables.rows, Slot(build, Some(k), q)), Find(read, q))
    {
      ReadingGivesProperties(types, tables.rows, build, Some(k), read);
      ProjectReturns(types, tables, build, k, read);
    }
    if ProjectKept(types, tables.rows, build, Some(k)) {
      forall read | IsReading(types, tables.rows, build, Some(k), read)
        ensures Returns(types, tables, build, Some(k), Dict(read))
      {
        AllIsReadFully(types, tables.rows, build, Some(k), read);
      }
    } else {
      var slot := ChangingSlot(types, tables.rows, build, Some(k));
      var v := OtherReading(types, tables.rows, build, slot);
      var read := CanReadProject(types, tables.rows, build, Some(k), slot.property, v);
      assert !RowsOf(types, slot.property, At(tables.rows, slot), Find(read, slot.property));
    }
  }
}
