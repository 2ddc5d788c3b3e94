/**
 The projects of builds as the properties table has them (darwinxref/DBDataStore.c), and the diff of two builds
 in these terms (darwinxref/plugins/diff.c).
 */
module StoredProjects {
  import ProjectDiff
  import opened Inheritance
  import opened PropertyList
  import opened PropertyQueries
  import opened TextOrder
  import opened Wrappers
  import Table = PropertyStore

  function ProjectsIn(rows: Table.Rows, build: Build): set<Table.Project> {
    set slot | slot in rows && rows[slot] != [] && slot.build == build && slot.project.Some? :: slot.project.value
  }

  const VERSION := "version"

  /** A lookup of the version as a string may give v, whatever the property is declared as. */
  ghost predicate HasVersion(rows: Table.Rows, build: Build, name: Table.Project, v: string) {
    CanFind(map[VERSION := Table.StringType], rows, build, name, VERSION, Some(Str(v)))
  }

  /** What the table says about inheritance, projects and their versions. */
  ghost predicate IsDatabaseOf(rows: Table.Rows, db: ProjectDiff.Database) {
    && IsInheritance(rows, db.inherits)
    && forall build :: Distinct(db.In(build)) && ToSet(db.In(build)) == ProjectsIn(rows, build)
  }

  /** The projects stored in any of these builds. */
  function ProjectsAlong(rows: Table.Rows, chain: seq<Build>): set<Table.Project> {
    set b, p | b in chain && p in ProjectsIn(rows, b) :: p
  }

  lemma StoredNames(rows: Table.Rows, db: ProjectDiff.Database, chain: seq<Build>)
    requires IsDatabaseOf(rows, db)
    ensures db.Valid() && ProjectDiff.InAny(db, chain) == ProjectsAlong(rows, chain)
  {
    forall b | b in db.projects
      ensures Distinct(db.projects[b])
    {
      assert Distinct(db.In(b));
    }
    forall p
      ensures p in ProjectDiff.InAny(db, chain) <==> p in ProjectsAlong(rows, chain)
    {
      assert forall b :: p in ToSet(db.In(b)) <==> p in ProjectsIn(rows, b);
    }
  }

  /** Versions can be looked up for all projects of a build. */
  ghost predicate VersionsOf(rows: Table.Rows, db: ProjectDiff.Database, build: Build)
    requires LoopFree(db.inherits, build)
  {
    forall p :: p in ProjectsAlong(rows, Chain(db.inherits, build)) ==> HasVersion(rows, build, p, db.version(build, p))
  }

  /** What the diff of two builds is to say about a project, in terms of the table. */
  ghost predicate Reportable(rows: Table.Rows, db: ProjectDiff.Database, build1: Build, build2: Build,
                             name: Table.Project)
    requires LoopFree(db.inherits, build1) && LoopFree(db.inherits, build2)
  {
    var in1 := name in ProjectsAlong(rows, Chain(db.inherits, build1));
    var in2 := name in ProjectsAlong(rows, Chain(db.inherits, build2));
    in1 != in2 || (in1 && db.version(build1, name) != db.version(build2, name))
  }

  ghost predicate ReportHolds(r: ProjectDiff.Report, rows: Table.Rows, build1: Build, build2: Build) {
    match r
    case OnlyIn(build, name, version) => HasVersion(rows, build, name, version)
    case Differs(name, version1, version2) =>
      HasVersion(rows, build1, name, version1) && HasVersion(rows, build2, name, version2)
  }

  lemma ReportedOrNot(rows: Table.Rows, db: ProjectDiff.Database, build1: Build, build2: Build, name: Table.Project)
    requires IsDatabaseOf(rows, db) && LoopFree(db.inherits, build1) && LoopFree(db.inherits, build2)
    ensures var names1 := Sorted(ProjectDiff.InAny(db, Chain(db.inherits, build1)));
      var names2 := Sorted(ProjectDiff.InAny(db, Chain(db.inherits, build2)));
      (exists r: ProjectDiff.Report :: r.name == name &&
        ProjectDiff.Expected(r, db, build1, build2, names1, names2)) <==>
      Reportable(rows, db, build1, build2, name)
  {
    var chain1, chain2 := Chain(db.inherits, build1), Chain(db.inherits, build2);
    StoredNames(rows, db, chain1);
    StoredNames(rows, db, chain2);
    var names1, names2 := Sorted(ProjectDiff.InAny(db, chain1)), Sorted(ProjectDiff.InAny(db, chain2));
    var v1, v2 := db.version(build1, name), db.version(build2, name);
    var r := if name !in names2 then ProjectDiff.OnlyIn(build1, name, v1)
             else if name !in names1 then ProjectDiff.OnlyIn(build2, name, v2)
             else ProjectDiff.Differs(name, v1, v2);
    assert r.name == name;
    assert Reportable(rows, db, build1, build2, name) ==> ProjectDiff.Expected(r, db, build1, build2, names1, names2);
  }

  /** The diff run on what the table says: it reports exactly the projects that only one build has, or
      that have different versions, each once, with versions that can be looked up. */
  method DiffStored(ghost rows: Table.Rows, db: ProjectDiff.Database, build1: Build, build2: Build)
      returns (out: seq<ProjectDiff.Report>)
    requires IsDatabaseOf(rows, db) && LoopFree(db.inherits, build1) && LoopFree(db.inherits, build2)
    requires VersionsOf(rows, db, build1) && VersionsOf(rows, db, build2)
    ensures ProjectDiff.NamedOnce(out)
    ensures forall name ::
      (exists r :: r in out && r.name == name) <==> Reportable(rows, db, build1, build2, name)
    ensures forall r :: r in out ==> ReportHolds(r, rows, build1, build2)
  {
    StoredNames(rows, db, Chain(db.inherits, build1));
    StoredNames(rows, db, Chain(db.inherits, build2));
    out := ProjectDiff.Run(db, build1, build2);
    forall name
      ensures (exists r :: r in out && r.name == name) <==> Reportable(rows, db, build1, build2, name)
    {
      ReportedOrNot(rows, db, build1, build2, name);
    }
  }
}
