/**
 The sequencer on top of the dependency queries (darwinbuild/buildorder): it reads the words of what
 darwinxref prints (darwinxref/plugins/dependencies.c).
 */
module BuildSequence {
  import opened BuildOrder
  import opened DependencyWalk
  import opened TextOrder
  import opened Walks

  // ------------------------------------------------------------- printed lines as words

  function Spaces(n: nat): string {
    if n == 0 then [] else " " + Spaces(n - 1)
  }

  function OutputText(lines: seq<Line>): string {
    if lines == [] then []
    else Spaces(lines[0].indent) + (lines[0].project + ("\n" + OutputText(lines[1..])))
  }

  /** A name that a line can be told from: it does not begin with a space and holds no line end. */
  predicate OnLine(name: string) {
    (name != [] ==> name[0] != ' ') && '\n' !in name
  }

  function LeadingSpaces(t: string): (n: nat)
    ensures n <= |t|
  {
    if t != [] && t[0] == ' ' then 1 + LeadingSpaces(t[1..]) else 0
  }

  function LineLength(t: string): (n: nat)
    ensures n <= |t|
  {
    if t == [] || t[0] == '\n' then 0 else 1 + LineLength(t[1..])
  }

  /** The first line, indented by its leading spaces, and what comes after it. */
  function FirstLine(t: string): (r: (Line, string))
    requires t != []
    ensures |r.1| < |t|
  {
    var n := LeadingSpaces(t);
    var end := n + LineLength(t[n..]);
    (Line(n, t[n..end]), if end < |t| then t[end + 1..] else [])
  }

  /** Text taken apart again. */
  function LinesOf(t: string): seq<Line>
    decreases |t|
  {
    if t == [] then [] else [FirstLine(t).0] + LinesOf(FirstLine(t).1)
  }

  lemma {:induction false} SpacesCounted(n: nat, t: string)
    requires t != [] && t[0] != ' '
    ensures |Spaces(n)| == n && LeadingSpaces(Spaces(n) + t) == n
  {
    if n == 0 {
      assert Spaces(n) + t == t;
    } else {
      SpacesCounted(n - 1, t);
      assert (Spaces(n) + t)[1..] == Spaces(n - 1) + t;
    }
  }

  lemma {:induction false} LineCounted(name: string, rest: string)
    requires '\n' !in name && rest != [] && rest[0] == '\n'
    ensures LineLength(name + rest) == |name|
  {
    if name == [] {
      assert name + rest == rest;
    } else {
      assert (name + rest)[1..] == name[1..] + rest;
      LineCounted(name[1..], rest);
    }
  }

  lemma TakenApart(a: string, b: string, end: string, more: string)
    requires |end| == 1
    ensures var t := a + (b + (end + more));
      && |t| > |a| + |b| && t[|a|..] == b + (end + more)
      && t[|a|..|a| + |b|] == b && t[|a| + |b| + 1..] == more
  {
    var t := a + (b + (end + more));
    assert t == (a + b) + (end + more);
    assert t == (a + b + end) + more;
    assert t == a + b + (end + more);
  }

  lemma FirstLineBack(line: Line, more: string)
    requires OnLine(line.project)
    ensures FirstLine(Spaces(line.indent) + (line.project + ("\n" + more))) == (line, more)
  {
    var end := "\n";
    TakenApart(Spaces(line.indent), line.project, end, more);
    SpacesCounted(line.indent, line.project + (end + more));
    LineCounted(line.project, end + more);
  }

  lemma LinesFrom(t: string, line: Line, rest: string)
    requires t != [] && FirstLine(t) == (line, rest)
    ensures LinesOf(t) == [line] + LinesOf(rest)
  {
  }

  lemma OutputFirst(lines: seq<Line>)
    requires lines != []
    ensures OutputText(lines) ==
      Spaces(lines[0].indent) + (lines[0].project + ("\n" + OutputText(lines[1..])))
    ensures OutputText(lines) != []
  {
  }

  /** What is printed tells each line's indentation and project. */
  lemma {:induction false} PrintedLinesBack(lines: seq<Line>)
    requires forall i :: 0 <= i < |lines| ==> OnLine(lines[i].project)
    ensures LinesOf(OutputText(lines)) == lines
  {
    if lines == [] {
    } else {
      OutputFirst(lines);
      FirstLineBack(lines[0], OutputText(lines[1..]));
      LinesFrom(OutputText(lines), lines[0], OutputText(lines[1..]));
      PrintedLinesBack(lines[1..]);
      assert lines == [lines[0]] + lines[1..];
    }
  }

  predicate Blank(c: char) {
    c == ' ' || '\t' <= c <= '\r'
  }

  /** What separates words: spaces, tabs, ends of lines, vertical tabs and form feeds. */
  lemma BlanksAre(c: char)
    ensures Blank(c) <==> c in [' ', '\t', '\n', '\r', 11 as char, 12 as char]
  {
    assert Blank(c) && c != ' ' ==> 9 <= c as int <= 13;
  }

  /** The length of the word at the start of a text. */
  function WordLength(t: string): (n: nat)
    ensures n <= |t| && (n < |t| ==> Blank(t[n]))
    ensures t != [] && !Blank(t[0]) ==> n > 0
  {
    if t == [] || Blank(t[0]) then 0 else 1 + WordLength(t[1..])
  }

  /** split(' ', ...) */
  function Words(t: string): seq<string>
    decreases |t|
  {
    if t == [] then []
    else if Blank(t[0]) then Words(t[1..])
    else
      var n := WordLength(t);
      [t[..n]] + Words(t[n..])
  }

  lemma {:induction false} WordEnds(a: string, b: string)
    requires b != [] && Blank(b[0])
    ensures WordLength(a + b) == WordLength(a)
  {
    if a == [] || Blank(a[0]) {
    } else {
      assert (a + b)[1..] == a[1..] + b;
      WordEnds(a[1..], b);
    }
  }

  /** Texts with a blank between them have their words one after the other. */
  lemma {:induction false} WordsApart(a: string, b: string)
    requires b != [] && Blank(b[0])
    ensures Words(a + b) == Words(a) + Words(b)
    decreases |a|
  {
    if a == [] {
      assert a + b == b;
    } else if Blank(a[0]) {
      assert (a + b)[1..] == a[1..] + b;
      WordsApart(a[1..], b);
    } else {
      WordEnds(a, b);
      var n := WordLength(a);
      assert (a + b)[..n] == a[..n] && (a + b)[n..] == a[n..] + b;
      WordsApart(a[n..], b);
    }
  }

  lemma {:induction false} SpacesHaveNoWords(n: nat, t: string)
    ensures Words(Spaces(n) + t) == Words(t)
  {
    if n == 0 {
      assert Spaces(n) + t == t;
    } else {
      assert (Spaces(n) + t)[1..] == Spaces(n - 1) + t;
      SpacesHaveNoWords(n - 1, t);
    }
  }

  /** The words of the projects on these lines, which are the projects unless their names hold blanks. */
  function ProjectWords(lines: seq<Line>): seq<string> {
    if lines == [] then [] else Words(lines[0].project) + ProjectWords(lines[1..])
  }

  lemma {:induction false} OutputWords(lines: seq<Line>)
    ensures Words(OutputText(lines)) == ProjectWords(lines)
  {
    if lines == [] {
    } else {
      var name, rest := lines[0].project, "\n" + OutputText(lines[1..]);
      SpacesHaveNoWords(lines[0].indent, name + rest);
      WordsApart(name, rest);
      assert rest[1..] == OutputText(lines[1..]);
      OutputWords(lines[1..]);
    }
  }

  lemma {:induction false} WordOfSome(lines: seq<Line>, w: string)
    ensures w in ProjectWords(lines) <==> exists p :: p in Projects(lines) && w in Words(p)
  {
    if lines == [] {
    } else {
      assert Projects(lines) == [lines[0].project] + Projects(lines[1..]);
      WordOfSome(lines[1..], w);
      if w in Words(lines[0].project) {
        assert lines[0].project in Projects(lines);
      }
      if p :| p in Projects(lines[1..]) && w in Words(p) {
        assert p in Projects(lines);
      }
    }
  }

  predicate IsWord(name: string) {
    name != [] && forall i :: 0 <= i < |name| ==> !Blank(name[i])
  }

  lemma {:induction false} OneWord(name: string)
    requires IsWord(name)
    ensures WordLength(name) == |name| && Words(name) == [name]
  {
    if |name| > 1 {
      OneWord(name[1..]);
    }
    assert name[1..] == [] || |name| > 1;
    assert name[..|name|] == name && name[|name|..] == [];
  }

  // ------------------------------------------------------------- what a project waits for

  /** A word of the name of a library that a project depends on. */
  ghost predicate Mentions(scene: Scene, p: Project, w: string)
    requires scene.Valid()
  {
    exists d :: d in scene.Direct(p, ["lib", "staticlib"]) && w in Words(d)
  }

  /** While names hold no blanks, those are the libraries themselves. */
  lemma MentionsAreDirect(scene: Scene, p: Project, w: string)
    requires scene.Valid() && forall d :: d in scene.Direct(p, ["lib", "staticlib"]) ==> IsWord(d)
    ensures Mentions(scene, p, w) <==> w in scene.Direct(p, ["lib", "staticlib"])
  {
    forall d | d in scene.Direct(p, ["lib", "staticlib"])
      ensures Words(d) == [d]
    {
      OneWord(d);
    }
  }

  lemma SecondFollows(path: seq<Project>, next: Edges, start: set<Project>)
    requires IsPath(path, next, start)
    ensures |path| == 1 || path[1] in next(path[0])
  {
  }

  lemma NothingFollows(next: Edges, start: set<Project>, p: Project)
    requires forall q :: next(q) == {}
    ensures Reaches(next, start, p) <==> p in start
  {
    if Reaches(next, start, p) {
      var path :| IsPath(path, next, start) && path[|path| - 1] == p;
      SecondFollows(path, next, start);
    }
    if p in start {
      StartIsReached(next, start, p);
    }
  }

  lemma AnswerIsDirect(lines: seq<Line>, scene: Scene, p: Project, types: seq<string>, w: string)
    requires scene.Valid() && Answers(lines, scene, p, types, [])
    ensures w in Words(OutputText(lines)) <==> exists d :: d in scene.Direct(p, types) && w in Words(d)
  {
    OutputWords(lines);
    WordOfSome(lines, w);
    DirectIsListed(scene, p, types);
    var next := EdgesOf(scene.Next([]));
    forall d
      ensures d in Projects(lines) <==> d in scene.Direct(p, types)
    {
      NothingFollows(next, ToSet(scene.DirectList(p, types)), d);
    }
  }

  lemma EitherType(scene: Scene, p: Project, w: string)
    requires scene.Valid()
    ensures Mentions(scene, p, w) <==>
      || (exists d :: d in scene.Direct(p, ["lib"]) && w in Words(d))
      || (exists d :: d in scene.Direct(p, ["staticlib"]) && w in Words(d))
  {
    assert scene.Direct(p, ["lib", "staticlib"]) == scene.Direct(p, ["lib"]) + scene.Direct(p, ["staticlib"]);
  }

  /** The words that the script gets for one project. */
  method QueryWords(scene: Scene, p: Project) returns (words: seq<string>)
    requires scene.Valid()
    ensures forall w :: w in words <==> Mentions(scene, p, w)
  {
    var lib := RunCommand(Lib, scene, p);
    var archives := RunCommand(StaticLib, scene, p);
    words := Words(OutputText(lib)) + Words(OutputText(archives));
    forall w
      ensures w in words <==> Mentions(scene, p, w)
    {
      AnswerIsDirect(lib, scene, p, ["lib"], w);
      AnswerIsDirect(archives, scene, p, ["staticlib"], w);
      EitherType(scene, p, w);
    }
  }

  // ------------------------------------------------------------- the script

  /** What project p waits for: the libraries it depends on that are being built too, but not itself, no
      compiler and none of the listed exceptions. */
  ghost predicate WaitsFor(scene: Scene, compilers: set<Project>, listed: set<Project>, p: Project, d: Project)
    requires scene.Valid()
  {
    && Mentions(scene, p, d)
    && d != p && d !in compilers && d in listed
    && !(p in DEP_EXCEPTIONS && d in DEP_EXCEPTIONS[p])
  }

  /** A list of projects in which each waits for the next one, and the last for the first. */
  ghost predicate WaitsInCircle(scene: Scene, compilers: set<Project>, listed: set<Project>, cycle: seq<Project>)
    requires scene.Valid()
  {
    && cycle != [] && (forall i :: 0 <= i < |cycle| ==> cycle[i] in listed)
    && (forall i, j :: 0 <= i < j < |cycle| && j == i + 1 ==> WaitsFor(scene, compilers, listed, cycle[i], cycle[j]))
    && WaitsFor(scene, compilers, listed, cycle[|cycle| - 1], cycle[0])
  }

  /** Each project of the order comes after all it waits for. */
  ghost predicate WaitedFor(scene: Scene, compilers: set<Project>, listed: set<Project>, order: seq<Project>)
    requires scene.Valid()
  {
    forall i, d :: 0 <= i < |order| && WaitsFor(scene, compilers, listed, order[i], d) ==> d in order[..i]
  }

  ghost predicate WaitsForOneOf(scene: Scene, compilers: set<Project>, listed: set<Project>, p: Project,
                                left: seq<Project>)
    requires scene.Valid()
  {
    exists d :: d in left && WaitsFor(scene, compilers, listed, p, d)
  }

  /** The others could be ordered, and each project left waits for one that is left. */
  ghost predicate LeftBehind(scene: Scene, compilers: set<Project>, projects: seq<Project>, order: seq<Project>,
                             left: seq<Project>)
    requires scene.Valid()
  {
    && multiset(order) + multiset(left) == multiset(projects)
    && WaitedFor(scene, compilers, ToSet(projects), order)
    && (SENTINEL !in projects ==>
          forall p :: p in left ==> WaitsForOneOf(scene, compilers, ToSet(projects), p, left))
  }

  ghost predicate Queried(scene: Scene, xref: map<Project, seq<Project>>, projects: seq<Project>)
    requires scene.Valid()
  {
    && (forall p :: p in xref <==> p in projects)
    && forall p, w :: p in xref ==> (w in xref[p] <==> Mentions(scene, p, w))
  }

  method QueryAll(scene: Scene, projects: seq<Project>) returns (xref: map<Project, seq<Project>>)
    requires scene.Valid()
    ensures Queried(scene, xref, projects)
  {
    xref := map[];
    for i := 0 to |projects|
      invariant Queried(scene, xref, projects[..i])
    {
      var words := QueryWords(scene, projects[i]);
      assert projects[..i + 1] == projects[..i] + [projects[i]];
      xref := xref[projects[i] := words];
    }
    assert projects[..|projects|] == projects;
  }

  lemma GraphWaits(scene: Scene, setup: Setup, projects: seq<Project>, deps: Graph, p: Project, d: Project)
    requires scene.Valid() && Queried(scene, setup.xref, projects) && IsGraph(deps, setup, projects)
    ensures p in projects ==> p in deps && (d in deps[p] <==>
      WaitsFor(scene, setup.compilers, ToSet(projects), p, d))
    ensures p in deps ==> p in projects
  {
    assert p in deps ==> (d in deps[p] <==> Kept(setup, ToSet(projects), p, d));
  }

  lemma OneWaits(scene: Scene, setup: Setup, projects: seq<Project>, deps: Graph, p: Project, d: Project)
    requires scene.Valid() && Queried(scene, setup.xref, projects) && IsGraph(deps, setup, projects)
    ensures p in ToSet(projects) <==> p in deps
    ensures p in deps ==> (d in deps[p] <==> WaitsFor(scene, setup.compilers, ToSet(projects), p, d))
  {
    GraphWaits(scene, setup, projects, deps, p, d);
  }

  /** A circle in a relation that the graph holds. */
  ghost predicate InCircle(waits: (Project, Project) -> bool, listed: set<Project>, cycle: seq<Project>) {
    && cycle != [] && (forall i :: 0 <= i < |cycle| ==> cycle[i] in listed)
    && (forall i, j :: 0 <= i < j < |cycle| && j == i + 1 ==> waits(cycle[i], cycle[j]))
    && waits(cycle[|cycle| - 1], cycle[0])
  }

  lemma CircleIsCycle(waits: (Project, Project) -> bool, listed: set<Project>, deps: Graph, cycle: seq<Project>)
    requires forall i :: 0 <= i < |cycle| ==> (cycle[i] in listed <==> cycle[i] in deps)
    requires forall i, j :: 0 <= i < |cycle| && 0 <= j < |cycle| && cycle[i] in deps ==>
      (cycle[j] in deps[cycle[i]] <==> waits(cycle[i], cycle[j]))
    ensures IsCycle(cycle, deps) <==> InCircle(waits, listed, cycle)
  {
  }

  lemma SameCircles(scene: Scene, setup: Setup, projects: seq<Project>, deps: Graph, cycle: seq<Project>)
    requires scene.Valid() && Queried(scene, setup.xref, projects) && IsGraph(deps, setup, projects)
    ensures IsCycle(cycle, deps) <==> WaitsInCircle(scene, setup.compilers, ToSet(projects), cycle)
  {
    var waits := (p: Project, d: Project) => scene.Valid() && WaitsFor(scene, setup.compilers, ToSet(projects), p, d);
    forall i, j | 0 <= i < |cycle| && 0 <= j < |cycle|
      ensures cycle[i] in ToSet(projects) <==> cycle[i] in deps
      ensures cycle[i] in deps ==> (cycle[j] in deps[cycle[i]] <==> waits(cycle[i], cycle[j]))
    {
      OneWaits(scene, setup, projects, deps, cycle[i], cycle[j]);
    }
    CircleIsCycle(waits, ToSet(projects), deps, cycle);
    assert InCircle(waits, ToSet(projects), cycle) <==>
      WaitsInCircle(scene, setup.compilers, ToSet(projects), cycle);
  }

  lemma SameOrders(scene: Scene, setup: Setup, projects: seq<Project>, deps: Graph, order: seq<Project>)
    requires scene.Valid() && Queried(scene, setup.xref, projects) && IsGraph(deps, setup, projects)
    requires DependenciesFirst(order, deps) && multiset(order) <= multiset(projects)
    ensures WaitedFor(scene, setup.compilers, ToSet(projects), order)
  {
    forall i, d | 0 <= i < |order| && WaitsFor(scene, setup.compilers, ToSet(projects), order[i], d)
      ensures d in order[..i]
    {
      assert order[i] in multiset(order);
      assert order[i] in multiset(projects);
      GraphWaits(scene, setup, projects, deps, order[i], d);
    }
  }

  lemma SameLeft(scene: Scene, setup: Setup, projects: seq<Project>, deps: Graph, left: seq<Project>)
    requires scene.Valid() && Queried(scene, setup.xref, projects) && IsGraph(deps, setup, projects)
    ensures Stuck(ToSet(left), deps) ==>
      forall p :: p in left ==> WaitsForOneOf(scene, setup.compilers, ToSet(projects), p, left)
  {
    if Stuck(ToSet(left), deps) {
      forall p | p in left
        ensures WaitsForOneOf(scene, setup.compilers, ToSet(projects), p, left)
      {
        assert Waits(p, ToSet(left), deps);
        var d :| d in deps[p] && d in ToSet(left);
        GraphWaits(scene, setup, projects, deps, p, d);
      }
    }
  }

  /** The script with its queries: an order in which each project comes after all it waits for, or an
      abort, exactly if some wait for each other in a circle or one is named like the sentinel. An abort
      names projects that wait for each other, and all others could be ordered. */
  method Run(scene: Scene, list: seq<Project>, noBuild: set<Project>, compilers: set<Project>)
      returns (outcome: Outcome)
    requires scene.Valid()
    ensures var projects := Buildable(list, noBuild);
      && (outcome.Ordered? ==>
            && multiset(outcome.order) == multiset(projects)
            && WaitedFor(scene, compilers, ToSet(projects), outcome.order))
      && (outcome.Aborted? <==>
            SENTINEL in projects || exists cycle :: WaitsInCircle(scene, compilers, ToSet(projects), cycle))
      && (outcome.Aborted? ==> exists order :: LeftBehind(scene, compilers, projects, order, outcome.remaining))
  {
    var projects := Buildable(list, noBuild);
    var xref := QueryAll(scene, projects);
    var setup := Setup(compilers, xref);
    var deps;
    outcome, deps := BuildOrder.Run(list, noBuild, setup);
    forall cycle
      ensures IsCycle(cycle, deps) <==> WaitsInCircle(scene, compilers, ToSet(projects), cycle)
    {
      SameCircles(scene, setup, projects, deps, cycle);
    }
    if outcome.Ordered? {
      SameOrders(scene, setup, projects, deps, outcome.order);
    } else {
      ghost var order :| Leaves(order, outcome.remaining, projects, deps);
      SameOrders(scene, setup, projects, deps, order);
      SameLeft(scene, setup, projects, deps, outcome.remaining);
      assert LeftBehind(scene, compilers, projects, order, outcome.remaining);
    }
  }
}
