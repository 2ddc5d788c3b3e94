/**
 The projects of a build (darwinxref/DBDataStore.c) and how two builds differ in them
 (darwinxref/plugins/diff.c).
 */
module ProjectDiff {
  import opened Inheritance
  import opened StringArrays
  import opened TextOrder
  import opened Wrappers

  type Project = string

  /** The projects single builds have properties of (no repeats: a DISTINCT query), and the
      versions found by lookup. */
  datatype Database = Database(inherits: Inherits, projects: map<Build, seq<Project>>,
                               version: (Build, Project) -> string)
  {
    ghost predicate Valid() {
      forall b :: b in projects ==> Distinct(projects[b])
    }

    function In(build: Build): seq<Project> {
      if build in projects then projects[build] else []
    }
  }

  ghost function InAny(db: Database, builds: seq<Build>): set<Project> {
    set b, p | b in builds && p in db.In(b) :: p
  }

  lemma OneMoreBuild(db: Database, chain: seq<Build>, i: nat)
    requires i < |chain|
    ensures InAny(db, chain[..i + 1]) == InAny(db, chain[..i]) + ToSet(db.In(chain[i]))
  {
    assert chain[..i + 1] == chain[..i] + [chain[i]];
  }

  /** All projects of the builds a build inherits from, each once, in ascending order. */
  method CopyProjectNames(db: Database, param: Build) returns (names: seq<Project>)
    requires db.Valid() && LoopFree(db.inherits, param)
    ensures names == Sorted(InAny(db, Chain(db.inherits, param)))
  {
    ghost var chain := Chain(db.inherits, param);
    ChainClimbs(db.inherits, param);
    var projects := new StringArray([]);
    var build := Some(param);
    ghost var i: nat := 0;
    while build.Some?
      invariant i <= |chain| && build == if i < |chain| then Some(chain[i]) else None
      invariant fresh(projects)
      invariant Distinct(projects.items) && ToSet(projects.items) == InAny(db, chain[..i])
      decreases |chain| - i
    {
      var res := new StringArray(db.In(build.value));
      AppendMeans(projects.items, res.items);
      projects.AppendDistinct(res);
      OneMoreBuild(db, chain, i);
      StepUp(db.inherits, chain, i);
      build := Parent(db.inherits, build.value);
      i := i + 1;
    }
    assert chain[..|chain|] == chain;
    names := SortValues(projects.items);
    SortedValues(projects.items, names);
  }

  // ------------------------------------------------------------- the diff

  datatype Report =
    | OnlyIn(build: Build, name: Project, version: string)
    | Differs(name: Project, version1: string, version2: string)

  /** What a diff has to say: a project that only one build has, or that both have in different
      versions. */
  ghost predicate Expected(r: Report, db: Database, build1: Build, build2: Build,
                           names1: seq<Project>, names2: seq<Project>) {
    match r
    case OnlyIn(build, name, version) =>
      && version == db.version(build, name)
      && ((build == build1 && name in names1 && name !in names2) ||
        (build == build2 && name in names2 && name !in names1))
    case Differs(name, version1, version2) =>
      && name in names1 && name in names2
      && version1 == db.version(build1, name) && version2 == db.version(build2, name)
      && version1 != version2
  }

  ghost predicate Strict(list: seq<string>) {
    forall i, j :: 0 <= i < j < |list| ==> Less(list[i], list[j])
  }

  /** The first i names of a are all less than the names of b from j on. */
  ghost predicate AllBefore(a: seq<string>, i: nat, b: seq<string>, j: nat) {
    forall k, l :: 0 <= k < i <= |a| && j <= l < |b| ==> Less(a[k], b[l])
  }

  ghost predicate Among(names: seq<string>, n: nat, x: string) {
    exists k: nat :: k < n && k < |names| && names[k] == x
  }

  datatype Builds = Builds(db: Database, build1: Build, build2: Build, names1: seq<Project>, names2: seq<Project>) {

    ghost predicate Expects(r: Report) {
      Expected(r, db, build1, build2, names1, names2)
    }
  }

  ghost predicate NamedOnce(out: seq<Report>) {
    forall k, l :: 0 <= k < l < |out| ==> Less(out[k].name, out[l].name)
  }

  /** Names up to i and j were passed, and the reports made are exactly those about them, each
      name once and in ascending order. */
  ghost predicate Passed(b: Builds, i: nat, j: nat, out: seq<Report>) {
    && i <= |b.names1| && j <= |b.names2| && Strict(b.names1) && Strict(b.names2)
    && AllBefore(b.names1, i, b.names2, j) && AllBefore(b.names2, j, b.names1, i)
    && (forall r :: r in out <==> b.Expects(r) && (Among(b.names1, i, r.name) || Among(b.names2, j, r.name)))
    && NamedOnce(out)
  }

  lemma LessTransitive(a: string, b: string, c: string)
    requires (Less(a, b) && Leq(b, c)) || (Leq(a, b) && Less(b, c))
    ensures Less(a, c)
  {
    LeqTransitive(a, b, c);
    if a == c {
      LeqAntisymmetric(a, b);
    }
  }

  lemma AmongOneMore(names: seq<string>, n: nat, x: string)
    requires n < |names|
    ensures Among(names, n + 1, x) <==> Among(names, n, x) || names[n] == x
  {
    if Among(names, n, x) {
      var k: nat :| k < n && k < |names| && names[k] == x;
      assert k < n + 1 && names[k] == x;
    }
    if Among(names, n + 1, x) {
      var k: nat :| k < n + 1 && k < |names| && names[k] == x;
      assert k < n || names[n] == x;
    }
    if names[n] == x {
      assert n < n + 1 && names[n] == x;
    }
  }

  /** A name ahead of everything passed is not passed yet. */
  lemma SaidBefore(b: Builds, i: nat, j: nat, out: seq<Report>, x: string)
    requires Passed(b, i, j, out)
    requires forall k :: 0 <= k < i ==> Less(b.names1[k], x)
    requires forall l :: 0 <= l < j ==> Less(b.names2[l], x)
    ensures forall k :: 0 <= k < |out| ==> Less(out[k].name, x)
  {
    forall k | 0 <= k < |out|
      ensures Less(out[k].name, x)
    {
      assert out[k] in out;
    }
  }

  lemma OnlyInFirst(b: Builds, i: nat, j: nat, out: seq<Report>)
    requires Passed(b, i, j, out) && i < |b.names1| && (j < |b.names2| ==> Less(b.names1[i], b.names2[j]))
    ensures b.names1[i] !in b.names2
    ensures Passed(b, i + 1, j, out + [OnlyIn(b.build1, b.names1[i], b.db.version(b.build1, b.names1[i]))])
  {
    var x := b.names1[i];
    var report := OnlyIn(b.build1, x, b.db.version(b.build1, x));
    forall l | j <= l < |b.names2|
      ensures Less(x, b.names2[l])
    {
      if l > j {
        LessTransitive(x, b.names2[j], b.names2[l]);
      }
    }
    SaidBefore(b, i, j, out, x);
    forall r
      ensures r in out + [report] <==>
        b.Expects(r) && (Among(b.names1, i + 1, r.name) || Among(b.names2, j, r.name))
    {
      AmongOneMore(b.names1, i, r.name);
      assert x in b.names1;
    }
  }

  lemma OnlyInSecond(b: Builds, i: nat, j: nat, out: seq<Report>)
    requires Passed(b, i, j, out) && j < |b.names2| && (i < |b.names1| ==> Less(b.names2[j], b.names1[i]))
    ensures b.names2[j] !in b.names1
    ensures Passed(b, i, j + 1, out + [OnlyIn(b.build2, b.names2[j], b.db.version(b.build2, b.names2[j]))])
  {
    var x := b.names2[j];
    var report := OnlyIn(b.build2, x, b.db.version(b.build2, x));
    forall k | i <= k < |b.names1|
      ensures Less(x, b.names1[k])
    {
      if k > i {
        LessTransitive(x, b.names1[i], b.names1[k]);
      }
    }
    SaidBefore(b, i, j, out, x);
    forall r
      ensures r in out + [report] <==>
        b.Expects(r) && (Among(b.names1, i, r.name) || Among(b.names2, j + 1, r.name))
    {
      AmongOneMore(b.names2, j, r.name);
      assert x in b.names2;
    }
  }

  lemma InBoth(b: Builds, i: nat, j: nat, out: seq<Report>)
    requires Passed(b, i, j, out) && i < |b.names1| && j < |b.names2| && b.names1[i] == b.names2[j]
    ensures var version1 := b.db.version(b.build1, b.names1[i]);
      var version2 := b.db.version(b.build2, b.names1[i]);
      Passed(b, i + 1, j + 1, if version1 == version2 then out else out + [Differs(b.names1[i], version1, version2)])
  {
    var x := b.names1[i];
    var version1, version2 := b.db.version(b.build1, x), b.db.version(b.build2, x);
    var reports := if version1 == version2 then [] else [Differs(x, version1, version2)];
    SaidBefore(b, i, j, out, x);
    forall r
      ensures r in out + reports <==>
        b.Expects(r) && (Among(b.names1, i + 1, r.name) || Among(b.names2, j + 1, r.name))
    {
      AmongOneMore(b.names1, i, r.name);
      AmongOneMore(b.names2, j, r.name);
      assert x in b.names1 && x in b.names2;
    }
    assert out + [] == out;
  }

  method PrintRemaining1(ghost b: Builds, db: Database, build: Build, names: seq<Project>, index: nat, ghost j: nat,
                         so: seq<Report>)
    returns (out: seq<Report>)
    requires b.db == db && b.build1 == build && b.names1 == names
    requires Passed(b, index, j, so) && j == |b.names2|
    ensures Passed(b, |b.names1|, |b.names2|, out)
  {
    out := so;
    for i := index to |names|
      invariant Passed(b, i, j, out)
    {
      OnlyInFirst(b, i, j, out);
      out := out + [OnlyIn(build, names[i], db.version(build, names[i]))];
    }
  }

  method PrintRemaining2(ghost b: Builds, db: Database, build: Build, names: seq<Project>, ghost i: nat, index: nat,
                         so: seq<Report>)
    returns (out: seq<Report>)
    requires b.db == db && b.build2 == build && b.names2 == names
    requires Passed(b, i, index, so) && i == |b.names1|
    ensures Passed(b, |b.names1|, |b.names2|, out)
  {
    out := so;
    for j := index to |names|
      invariant Passed(b, i, j, out)
    {
      OnlyInSecond(b, i, j, out);
      out := out + [OnlyIn(build, names[j], db.version(build, names[j]))];
    }
  }

  /** Reports each name once, in ascending order: as only in one build, or as in both with
      different versions; names in both with the same version are passed over. */
  method Run(db: Database, build1: Build, build2: Build) returns (out: seq<Report>)
    requires db.Valid() && LoopFree(db.inherits, build1) && LoopFree(db.inherits, build2)
    ensures var names1 := Sorted(InAny(db, Chain(db.inherits, build1)));
      var names2 := Sorted(InAny(db, Chain(db.inherits, build2)));
      forall r :: r in out <==> Expected(r, db, build1, build2, names1, names2)
    ensures NamedOnce(out)
  {
    var names1 := CopyProjectNames(db, build1);
    var names2 := CopyProjectNames(db, build2);
    ghost var b := Builds(db, build1, build2, names1, names2);
    var i, j := 0, 0;
    out := [];
    while i < |names1| && j < |names2|
      invariant Passed(b, i, j, out)
      decreases |names1| - i + |names2| - j
    {
      var name1, name2 := names1[i], names2[j];
      LeqTotal(name1, name2);
      if name1 == name2 {
        InBoth(b, i, j, out);
        if db.version(build1, name1) != db.version(build2, name2) {
          out := out + [Differs(name1, db.version(build1, name1), db.version(build2, name2))];
        }
        i, j := i + 1, j + 1;
      } else if Leq(name1, name2) {
        OnlyInFirst(b, i, j, out);
        out := out + [OnlyIn(build1, name1, db.version(build1, name1))];
        i := i + 1;
      } else {
        OnlyInSecond(b, i, j, out);
        out := out + [OnlyIn(build2, name2, db.version(build2, name2))];
        j := j + 1;
      }
    }
    if i < |names1| {
      out := PrintRemaining1(b, db, build1, names1, i, j, out);
    } else {
      out := PrintRemaining2(b, db, build2, names2, i, j, out);
    }
  }
}
