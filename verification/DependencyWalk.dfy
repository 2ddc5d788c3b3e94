/**
 Printing what a project depends on (darwinxref/plugins/dependencies.c): a depth-first walk that
 remembers what it has printed.
 */
module DependencyWalk {
  import opened Dependencies
  import opened Inheritance
  import opened StringArrays
  import opened TextOrder
  import opened Walks
  import opened Wrappers

  /** What is being walked: a database as seen from one build. */
  datatype Scene = Scene(db: Database, build: Build) {

    ghost predicate Valid() {
      db.Valid() && LoopFree(db.inherits, build)
    }

    /** A project's dependencies of one type. */
    ghost function Listed(project: Project, t: Type): seq<string>
      requires Valid()
    {
      if Plain(t) then
        match Resolved(db, Reversed(Chain(db.inherits, build)), project, t)
        case None => []
        case Some(list) => list
      else []
    }

    ghost function Direct(project: Project, types: seq<Type>): set<Project>
      requires Valid()
    {
      set t, x | t in types && x in Listed(project, t) :: x
    }

    /** And in the order in which the types list them. */
    ghost function DirectList(project: Project, types: seq<Type>): seq<Project>
      requires Valid()
    {
      if types == [] then []
      else DirectList(project, types[..|types| - 1]) + Listed(project, types[|types| - 1])
    }

    ghost function Next(types: seq<Type>): OrderedEdges
      requires Valid()
    {
      p => DirectList(p, types)
    }
  }

  function Named(db: Database): set<string> {
    set at, key, x | at in db.dependencies && key in db.dependencies[at] && x in db.dependencies[at][key] :: x
  }

  ghost predicate Has(list: Option<seq<string>>, x: string) {
    list.Some? && x in list.value
  }

  lemma {:induction false} RemoveKeepsOnly(list: seq<string>, items: seq<string>, x: string)
    ensures x in RemoveEach(list, items) ==> x in list
  {
    if items == [] {
    } else {
      RemoveKeepsOnly(list, items[..|items| - 1], x);
    }
  }

  lemma EditBrings(list: Option<seq<string>>, key: Type, deps: Deps, x: string)
    requires key != ""
    ensures Has(EditIf(list, key, deps, deps.Keys), x) ==> Has(list, x) || (key in deps && x in deps[key])
  {
    if list.Some? && key in deps {
      RemoveKeepsOnly(list.value, deps[key], x);
    }
  }

  lemma {:induction false} ResolvedIsNamed(db: Database, builds: seq<Build>, project: Project, t: Type, x: string)
    requires Plain(t) && Resolved(db, builds, project, t).Some?
    requires x in Resolved(db, builds, project, t).value
    ensures x in Named(db)
  {
    var deps := db.At(builds[|builds| - 1], project);
    var before := Resolved(db, builds[..|builds| - 1], project, t);
    if before.Some? && x in before.value {
      ResolvedIsNamed(db, builds[..|builds| - 1], project, t, x);
    } else {
      var keys := KeysAbout(t);
      var l0 := EditIf(before, keys[0], deps, deps.Keys);
      var l1 := EditIf(l0, keys[1], deps, deps.Keys);
      EditBrings(before, keys[0], deps, x);
      EditBrings(l0, keys[1], deps, x);
      EditBrings(l1, keys[2], deps, x);
    }
  }

  lemma DirectByLast(scene: Scene, project: Project, fewer: seq<Type>, last: Type)
    requires scene.Valid()
    ensures scene.Direct(project, fewer + [last]) ==
      scene.Direct(project, fewer) + ToSet(scene.Listed(project, last))
  {
    var types := fewer + [last];
    forall t: Type
      ensures t in types <==> t in fewer || t == last
    {
    }
    forall x
      ensures x in scene.Direct(project, types) <==>
        x in scene.Direct(project, fewer) || x in scene.Listed(project, last)
    {
      if x in scene.Listed(project, last) {
        assert last in types;
      }
    }
  }

  lemma {:induction false} DirectIsListed(scene: Scene, project: Project, types: seq<Type>)
    requires scene.Valid()
    ensures ToSet(scene.DirectList(project, types)) == scene.Direct(project, types)
  {
    if types == [] {
    } else {
      var fewer, last := types[..|types| - 1], types[|types| - 1];
      assert types == fewer + [last];
      DirectIsListed(scene, project, fewer);
      DirectByLast(scene, project, fewer, last);
      assert ToSet(scene.DirectList(project, types)) ==
        ToSet(scene.DirectList(project, fewer)) + ToSet(scene.Listed(project, last));
    }
  }

  lemma ListGrows(scene: Scene, project: Project, types: seq<Type>, i: nat)
    requires scene.Valid() && i < |types|
    ensures scene.DirectList(project, types[..i + 1]) ==
      scene.DirectList(project, types[..i]) + scene.Listed(project, types[i])
  {
    assert types[..i + 1][..i] == types[..i];
  }

  lemma DirectIsNamed(scene: Scene, project: Project, t: Type, x: string)
    requires scene.Valid() && x in scene.Listed(project, t)
    ensures x in Named(scene.db)
  {
    ResolvedIsNamed(scene.db, Reversed(Chain(scene.db.inherits, scene.build)), project, t, x);
  }

  /** The dictionary the code copies holds what is listed. */
  lemma DictionaryIsListed(lists: Lists, scene: Scene, project: Project, t: Type)
    requires scene.Valid()
    requires AreResolved(lists, scene.db, Reversed(Chain(scene.db.inherits, scene.build)), project)
    ensures scene.Listed(project, t) == if t in lists then lists[t] else []
    ensures forall x :: x in scene.Listed(project, t) ==> x in Named(scene.db)
  {
    if Plain(t) {
      var chain := Reversed(Chain(scene.db.inherits, scene.build));
      assert Lookup(lists, t) == Resolved(scene.db, chain, project, t);
    }
    forall x | x in scene.Listed(project, t)
      ensures x in Named(scene.db)
    {
      DirectIsNamed(scene, project, t, x);
    }
  }

  lemma OneFurther(first: seq<Project>, list: seq<Project>, i: nat)
    requires i < |list|
    ensures first + list[..i + 1] == first + list[..i] + [list[i]]
    ensures list[i] in list
  {
  }

  // ------------------------------------------------------------- the walk

  class Printer {
    var visited: set<Project>
    var output: seq<Line>

    constructor ()
      ensures visited == {} && output == []
    {
      visited := {};
      output := [];
    }

    /** Prints what a project depends on, at the given level of indentation. */
    method PrintDependencies(types: seq<Type>, recursiveTypes: seq<Type>, scene: Scene, project: Project,
                             indentLevel: nat)
      returns (ghost lines: seq<Line>)
      requires scene.Valid()
      modifies this
      ensures output == old(output) + lines
      ensures Printed(scene.Next(recursiveTypes), indentLevel, scene.DirectList(project, types),
        old(visited), visited, lines)
      decreases Named(scene.db) - visited, 4
    {
      var dependencies := DependenciesOf(scene.db, scene.build, project);
      ghost var first: seq<Project> := [];
      lines := [];
      for i := 0 to |types|
        invariant output == old(output) + lines
        invariant first == scene.DirectList(project, types[..i])
        invariant Printed(scene.Next(recursiveTypes), indentLevel, first, old(visited), visited, lines)
      {
        ListGrows(scene, project, types, i);
        DictionaryIsListed(dependencies, scene, project, types[i]);
        if types[i] in dependencies {
          first, lines := PrintList(dependencies[types[i]], recursiveTypes, scene, indentLevel,
            first, old(visited), lines, old(output));
        }
      }
      assert types[..|types|] == types;
    }

    method PrintList(list: seq<Project>, recursiveTypes: seq<Type>, scene: Scene, indentLevel: nat,
                     ghost first: seq<Project>, ghost v0: set<Project>, ghost lines: seq<Line>, ghost above: seq<Line>)
      returns (ghost more: seq<Project>, ghost longer: seq<Line>)
      requires scene.Valid() && output == above + lines
      requires forall x :: x in list ==> x in Named(scene.db)
      requires Printed(scene.Next(recursiveTypes), indentLevel, first, v0, visited, lines)
      modifies this
      ensures output == above + longer && old(visited) <= visited
      ensures more == first + list
      ensures Printed(scene.Next(recursiveTypes), indentLevel, more, v0, visited, longer)
      decreases Named(scene.db) - visited, 3
    {
      more, longer := first, lines;
      for i := 0 to |list|
        invariant output == above + longer && old(visited) <= visited
        invariant more == first + list[..i]
        invariant Printed(scene.Next(recursiveTypes), indentLevel, more, v0, visited, longer)
      {
        more, longer := PrintNext(list, i, recursiveTypes, scene, indentLevel, first, v0, more, longer, above);
      }
      assert list[..|list|] == list;
    }

    method PrintNext(list: seq<Project>, i: nat, recursiveTypes: seq<Type>, scene: Scene, indentLevel: nat,
                     ghost first: seq<Project>, ghost v0: set<Project>, ghost before: seq<Project>,
                     ghost lines: seq<Line>, ghost above: seq<Line>)
      returns (ghost more: seq<Project>, ghost longer: seq<Line>)
      requires scene.Valid() && output == above + lines && i < |list| && before == first + list[..i]
      requires forall x :: x in list ==> x in Named(scene.db)
      requires Printed(scene.Next(recursiveTypes), indentLevel, before, v0, visited, lines)
      modifies this
      ensures output == above + longer && old(visited) <= visited
      ensures more == first + list[..i + 1]
      ensures Printed(scene.Next(recursiveTypes), indentLevel, more, v0, visited, longer)
      decreases Named(scene.db) - visited, 2
    {
      more := before + [list[i]];
      OneFurther(first, list, i);
      longer := PrintOne(list[i], recursiveTypes, scene, indentLevel, before, v0, lines, above);
    }

    method PrintOne(newproject: Project, recursiveTypes: seq<Type>, scene: Scene, indentLevel: nat,
                    ghost first: seq<Project>, ghost v0: set<Project>, ghost lines: seq<Line>, ghost above: seq<Line>)
      returns (ghost longer: seq<Line>)
      requires scene.Valid() && output == above + lines && newproject in Named(scene.db)
      requires Printed(scene.Next(recursiveTypes), indentLevel, first, v0, visited, lines)
      modifies this
      ensures output == above + longer && old(visited) <= visited
      ensures Printed(scene.Next(recursiveTypes), indentLevel, first + [newproject], v0, visited, longer)
      decreases Named(scene.db) - visited, 1
    {
      if newproject in visited {
        PrintedBefore(scene.Next(recursiveTypes), indentLevel, first, v0, visited, lines, newproject);
        longer := lines;
      } else {
        ghost var below := PrintNew(newproject, recursiveTypes, scene, indentLevel);
        PrintedMore(scene.Next(recursiveTypes), indentLevel, first, v0, old(visited), lines, newproject, visited,
          below);
        longer := lines + [Line(indentLevel, newproject)] + below;
        Regroup(above, lines, [Line(indentLevel, newproject)], below);
      }
    }

    method PrintNew(newproject: Project, recursiveTypes: seq<Type>, scene: Scene, indentLevel: nat)
      returns (ghost below: seq<Line>)
      requires scene.Valid() && newproject in Named(scene.db) && newproject !in visited
      modifies this
      ensures output == old(output) + [Line(indentLevel, newproject)] + below
      ensures old(visited) <= visited
      ensures Printed(scene.Next(recursiveTypes), indentLevel + 1, scene.Next(recursiveTypes)(newproject),
        old(visited) + {newproject}, visited, below)
      decreases Named(scene.db) - visited, 0
    {
      output := output + [Line(indentLevel, newproject)];
      visited := visited + {newproject};
      below := PrintDependencies(recursiveTypes, recursiveTypes, scene, newproject, indentLevel + 1);
    }
  }

  // ------------------------------------------------------------- the command

  datatype Command = Run | Build | Header | StaticLib | Lib

  /** The answer to a query for these types that follows the others further. */
  ghost predicate Answers(lines: seq<Line>, scene: Scene, project: Project, types: seq<Type>, recursive: seq<Type>)
    requires scene.Valid()
  {
    IsAnswer(lines, scene.Next(recursive), scene.DirectList(project, types))
  }

  /** The dependency types an option prints, and those it follows further. */
  function TypesFor(option: Command): (seq<Type>, seq<Type>) {
    match option
    case Run => (["lib", "run"], ["lib", "run"])
    case Build => (["staticlib", "lib", "run", "build"], ["lib", "run"])
    case Header => (["header"], [])
    case StaticLib => (["staticlib"], [])
    case Lib => (["lib"], [])
  }

  /** Prints each project once: the direct dependencies of the option's types and what can be
      reached from them through the recursive types. */
  method RunCommand(option: Command, scene: Scene, project: Project) returns (lines: seq<Line>)
    requires scene.Valid()
    ensures option == Run ==> Answers(lines, scene, project, ["lib", "run"], ["lib", "run"])
    ensures option == Build ==> Answers(lines, scene, project, ["staticlib", "lib", "run", "build"], ["lib", "run"])
    ensures option == Header ==> Answers(lines, scene, project, ["header"], [])
    ensures option == StaticLib ==> Answers(lines, scene, project, ["staticlib"], [])
    ensures option == Lib ==> Answers(lines, scene, project, ["lib"], [])
  {
    var (types, recursive) := TypesFor(option);
    var printer := new Printer();
    ghost var printed := printer.PrintDependencies(types, recursive, scene, project, 0);
    lines := printer.output;
    PrintedIsAnswer(scene.Next(recursive), scene.DirectList(project, types), printer.visited, printed);
    assert lines == printed;
  }
}
