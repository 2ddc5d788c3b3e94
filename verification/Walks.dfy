/**
 Depth-first walks that print each place once, indented below what led to it.
 */
module Walks {
  import opened TextOrder

  type Project = string

  /** Where a walk goes from each project. */
  type Edges = Project -> set<Project>

  /** And in which order. */
  type OrderedEdges = Project -> seq<Project>

  function EdgesOf(order: OrderedEdges): Edges {
    p => ToSet(order(p))
  }

  // ------------------------------------------------------------- which projects are printed

  /** Every project of the set has its dependencies of these types in it. */
  ghost predicate ClosedUnder(projects: set<Project>, next: Edges)
  {
    forall p :: p in projects ==> next(p) <= projects
  }

  /** A walk from `start` turned the visited set `before` into `after`. */
  ghost predicate Walked(next: Edges, start: set<Project>,
                         before: set<Project>, after: set<Project>)
  {
    && before <= after && start <= after
    && (forall p :: p in after - before ==> next(p) <= after)
    && (forall whole: set<Project> :: start <= whole && ClosedUnder(whole, next) ==> after - before <= whole)
  }

  lemma WalkedOn(next: Edges, start: set<Project>, p: Project,
                 v0: set<Project>, v1: set<Project>, v2: set<Project>)
    requires Walked(next, start, v0, v1) && p !in v1
    requires Walked(next, next(p), v1 + {p}, v2)
    ensures Walked(next, start + {p}, v0, v2)
  {
    forall whole: set<Project> | start + {p} <= whole && ClosedUnder(whole, next)
      ensures v2 - v0 <= whole
    {
      assert next(p) <= whole;
    }
  }

  lemma AlreadyVisited(next: Edges, start: set<Project>, p: Project,
                       v0: set<Project>, v1: set<Project>)
    requires Walked(next, start, v0, v1) && p in v1
    ensures Walked(next, start + {p}, v0, v1)
  {
  }

  /** Each project of the path is a dependency of the one before it. */
  ghost predicate IsPath(path: seq<Project>, next: Edges, start: set<Project>)
  {
    && path != [] && path[0] in start
    && forall i, j :: 0 <= i < j < |path| && j == i + 1 ==> path[j] in next(path[i])
  }

  ghost predicate Reaches(next: Edges, start: set<Project>, p: Project)
  {
    exists path :: IsPath(path, next, start) && path[|path| - 1] == p
  }

  lemma StartIsReached(next: Edges, start: set<Project>, p: Project)
    requires p in start
    ensures Reaches(next, start, p)
  {
    var path := [p];
    assert IsPath(path, next, start) && path[|path| - 1] == p;
  }

  lemma ReachOn(next: Edges, start: set<Project>, p: Project, d: Project)
    requires Reaches(next, start, p) && d in next(p)
    ensures Reaches(next, start, d)
  {
    var path :| IsPath(path, next, start) && path[|path| - 1] == p;
    var longer := path + [d];
    assert IsPath(longer, next, start) && longer[|longer| - 1] == d;
  }

  lemma ReachedIsClosed(next: Edges, start: set<Project>, after: set<Project>)
    requires Walked(next, start, {}, after)
    ensures forall p :: p in after ==> Reaches(next, start, p)
  {
    var reached := set p | p in after && Reaches(next, start, p);
    forall p | p in start
      ensures p in reached
    {
      StartIsReached(next, start, p);
    }
    forall p | p in reached
      ensures next(p) <= reached
    {
      forall d | d in next(p)
        ensures d in reached
      {
        ReachOn(next, start, p, d);
      }
    }
    assert ClosedUnder(reached, next);
    forall p | p in after
      ensures p in reached
    {
      assert p in after - {};
    }
  }

  lemma {:induction false} PathStaysInside(path: seq<Project>, next: Edges, start: set<Project>, after: set<Project>)
    requires Walked(next, start, {}, after)
    requires IsPath(path, next, start)
    ensures path[|path| - 1] in after
  {
    if |path| <= 1 {
    } else {
      var shorter := path[..|path| - 1];
      PathStaysInside(shorter, next, start, after);
      var p := shorter[|shorter| - 1];
      assert p == path[|path| - 2];
      assert next(p) <= after;
    }
  }

  /** A walk that starts with nothing visited visits exactly what can be reached. */
  lemma WalkedIsReached(next: Edges, start: set<Project>, after: set<Project>)
    requires Walked(next, start, {}, after)
    ensures forall p :: p in after <==> Reaches(next, start, p)
  {
    forall p | Reaches(next, start, p)
      ensures p in after
    {
      var path :| IsPath(path, next, start) && path[|path| - 1] == p;
      PathStaysInside(path, next, start, after);
    }
    ReachedIsClosed(next, start, after);
  }

  // ------------------------------------------------------------- how they are printed

  datatype Line = Line(indent: nat, project: Project)

  /** The line that a line hangs from: the last one before it that is less indented, by one. */
  ghost predicate Hangs(lines: seq<Line>, j: nat, k: nat) {
    && j < k < |lines| && lines[k].indent == lines[j].indent + 1
    && forall m :: j < m < k ==> lines[m].indent >= lines[k].indent
  }

  ghost predicate Explained(lines: seq<Line>, k: nat, next: Edges)
    requires k < |lines|
  {
    exists j: nat :: Hangs(lines, j, k) && lines[k].project in next(lines[j].project)
  }

  ghost predicate FitsAt(lines: seq<Line>, k: nat, level: nat, next: Edges, start: set<Project>)
    requires k < |lines|
  {
    && lines[k].indent >= level
    && (lines[k].indent == level ==> lines[k].project in start)
    && (lines[k].indent > level ==> Explained(lines, k, next))
  }

  /** Lines at the first level are in `start`; every other line hangs from a project that
      depends on it. */
  ghost predicate Forest(lines: seq<Line>, level: nat, next: Edges, start: set<Project>) {
    forall k: nat {:trigger FitsAt(lines, k, level, next, start)} ::
      k < |lines| ==> FitsAt(lines, k, level, next, start)
  }

  ghost predicate Embeds(all: seq<Line>, at: nat, part: seq<Line>) {
    at + |part| <= |all| && all[at..at + |part|] == part
  }

  lemma ExplainedThere(all: seq<Line>, at: nat, part: seq<Line>, k: nat, next: Edges)
    requires Embeds(all, at, part) && k < |part| && Explained(part, k, next)
    ensures Explained(all, at + k, next)
  {
    var j: nat :| Hangs(part, j, k) && part[k].project in next(part[j].project);
    assert all[at + j] == part[j] && all[at + k] == part[k];
    forall m | at + j < m < at + k
      ensures all[m].indent >= all[at + k].indent
    {
      assert all[m] == part[m - at];
    }
    assert Hangs(all, at + j, at + k);
  }

  lemma HangsFromRoot(all: seq<Line>, at: nat, part: seq<Line>, k: nat, next: Edges)
    requires Embeds(all, at, part) && 0 < at && k < |part|
    requires part[k].indent == all[at - 1].indent + 1 && part[k].project in next(all[at - 1].project)
    requires forall m :: 0 <= m < k ==> part[m].indent >= part[k].indent
    ensures Explained(all, at + k, next)
  {
    assert all[at + k] == part[k];
    forall m | at - 1 < m < at + k
      ensures all[m].indent >= all[at + k].indent
    {
      assert all[m] == part[m - at];
    }
    assert Hangs(all, at - 1, at + k);
  }

  lemma BelowFits(all: seq<Line>, level: nat, next: Edges, start: set<Project>,
                  at: nat, below: seq<Line>, k: nat)
    requires Embeds(all, at, below) && 0 < at && k < |below|
    requires all[at - 1].indent == level && Forest(below, level + 1, next, next(all[at - 1].project))
    ensures FitsAt(all, at + k, level, next, start)
  {
    assert all[at + k] == below[k];
    assert FitsAt(below, k, level + 1, next, next(all[at - 1].project));
    if below[k].indent == level + 1 {
      forall m: nat | m < k
        ensures below[m].indent >= level + 1
      {
        assert FitsAt(below, m, level + 1, next, next(all[at - 1].project));
      }
      HangsFromRoot(all, at, below, k, next);
    } else {
      ExplainedThere(all, at, below, k, next);
    }
  }

  lemma ForestGrows(lines: seq<Line>, level: nat, next: Edges, start: set<Project>,
                    p: Project, below: seq<Line>)
    requires Forest(lines, level, next, start)
    requires Forest(below, level + 1, next, next(p))
    ensures Forest(lines + [Line(level, p)] + below, level, next, start + {p})
  {
    var all := lines + [Line(level, p)] + below;
    var n := |lines|;
    assert all[n] == Line(level, p);
    assert Embeds(all, 0, lines) && Embeds(all, n + 1, below);
    forall k: nat | k < |all|
      ensures FitsAt(all, k, level, next, start + {p})
    {
      if k < n {
        assert all[k] == lines[k] && FitsAt(lines, k, level, next, start);
        if lines[k].indent > level {
          ExplainedThere(all, 0, lines, k, next);
        }
      } else if k > n {
        BelowFits(all, level, next, start + {p}, n + 1, below, k - n - 1);
      }
    }
  }

  function Projects(lines: seq<Line>): seq<Project> {
    seq(|lines|, i requires 0 <= i < |lines| => lines[i].project)
  }

  /** The lines name each project of the set once, and no other. */
  ghost predicate NamesOnce(lines: seq<Line>, projects: set<Project>) {
    Distinct(Projects(lines)) && ToSet(Projects(lines)) == projects
  }

  lemma DistinctTogether(a: seq<Project>, x: Project, b: seq<Project>)
    requires Distinct(a) && Distinct(b) && x !in a && x !in b
    requires ToSet(a) !! ToSet(b)
    ensures Distinct(a + [x] + b)
    ensures ToSet(a + [x] + b) == ToSet(a) + {x} + ToSet(b)
  {
    var all := a + [x] + b;
    forall i, j | 0 <= i < j < |all|
      ensures all[i] != all[j]
    {
      if i < |a| < j {
        assert all[i] in ToSet(a) && all[j] in ToSet(b);
      }
    }
  }

  lemma NamesGrow(lines: seq<Line>, v0: set<Project>, v1: set<Project>, line: Line, below: seq<Line>, v2: set<Project>)
    requires v0 <= v1 && line.project !in v1 && v1 + {line.project} <= v2
    requires NamesOnce(lines, v1 - v0) && NamesOnce(below, v2 - (v1 + {line.project}))
    ensures NamesOnce(lines + [line] + below, v2 - v0)
  {
    assert Projects(lines + [line] + below) == Projects(lines) + [line.project] + Projects(below);
    assert line.project !in ToSet(Projects(lines)) && line.project !in ToSet(Projects(below));
    DistinctTogether(Projects(lines), line.project, Projects(below));
    assert ToSet(Projects(lines)) + {line.project} + ToSet(Projects(below)) == v2 - v0;
  }

  // ------------------------------------------------------------- in which order they are printed

  /** A project of this name is on one of the first n lines, or was visited before. */
  ghost predicate Known(lines: seq<Line>, n: nat, v0: set<Project>, x: Project) {
    x in v0 || exists m: nat :: m < n && m < |lines| && lines[m].project == x
  }

  /** A place in a list with everything before it known. */
  ghost predicate InTurn(lines: seq<Line>, n: nat, v0: set<Project>, list: seq<Project>, x: Project) {
    exists i: nat :: i < |list| && list[i] == x && forall h: nat :: h < i ==> Known(lines, n, v0, list[h])
  }

  ghost predicate TurnAt(lines: seq<Line>, k: nat, level: nat, order: OrderedEdges, first: seq<Project>,
                         v0: set<Project>)
    requires k < |lines|
  {
    if lines[k].indent == level then InTurn(lines, k, v0, first, lines[k].project)
    else exists j: nat :: Hangs(lines, j, k) && InTurn(lines, k, v0, order(lines[j].project), lines[k].project)
  }

  /** No project is printed before those that come earlier in the list it is printed from. */
  ghost predicate InOrder(lines: seq<Line>, level: nat, order: OrderedEdges, first: seq<Project>, v0: set<Project>) {
    forall k: nat {:trigger TurnAt(lines, k, level, order, first, v0)} ::
      k < |lines| ==> TurnAt(lines, k, level, order, first, v0)
  }

  /** Line m is not behind the lines below line j. */
  ghost predicate NotBehind(lines: seq<Line>, j: nat, m: nat)
    requires j < |lines|
  {
    m < |lines| && forall e: nat :: j < e < |lines| && lines[e].indent <= lines[j].indent ==> m < e
  }

  ghost predicate DoneBelow(lines: seq<Line>, j: nat, next: Edges, v0: set<Project>)
    requires j < |lines|
  {
    forall x :: x in next(lines[j].project) ==>
      x in v0 || exists m: nat :: NotBehind(lines, j, m) && lines[m].project == x
  }

  /** Below each project, everything it depends on is printed unless it was before. */
  ghost predicate DepthFirst(lines: seq<Line>, next: Edges, v0: set<Project>) {
    forall j: nat {:trigger DoneBelow(lines, j, next, v0)} :: j < |lines| ==> DoneBelow(lines, j, next, v0)
  }

  lemma KnownThere(all: seq<Line>, at: nat, part: seq<Line>, n: nat, v0: set<Project>, v1: set<Project>, x: Project)
    requires Embeds(all, at, part) && n <= |part| && Known(part, n, v1, x)
    requires forall y :: y in v1 ==> Known(all, at, v0, y)
    ensures Known(all, at + n, v0, x)
  {
    if m: nat :| m < n && m < |part| && part[m].project == x {
      assert all[at + m] == part[m];
    }
  }

  lemma InTurnThere(all: seq<Line>, at: nat, part: seq<Line>, n: nat, v0: set<Project>, v1: set<Project>,
                    list: seq<Project>, longer: seq<Project>, x: Project)
    requires Embeds(all, at, part) && n <= |part| && InTurn(part, n, v1, list, x) && list <= longer
    requires forall y :: y in v1 ==> Known(all, at, v0, y)
    ensures InTurn(all, at + n, v0, longer, x)
  {
    var i: nat :| i < |list| && list[i] == x && forall h: nat :: h < i ==> Known(part, n, v1, list[h]);
    assert longer[i] == x;
    forall h: nat | h < i
      ensures Known(all, at + n, v0, longer[h])
    {
      KnownThere(all, at, part, n, v0, v1, list[h]);
    }
  }

  lemma HangsThere(all: seq<Line>, at: nat, part: seq<Line>, j: nat, k: nat)
    requires Embeds(all, at, part) && Hangs(part, j, k)
    ensures Hangs(all, at + j, at + k) && all[at + j] == part[j] && all[at + k] == part[k]
  {
    assert all[at + j] == part[j] && all[at + k] == part[k];
    forall m | at + j < m < at + k
      ensures all[m].indent >= all[at + k].indent
    {
      assert all[m] == part[m - at];
    }
  }

  /** Lines printed before stay in order when more are printed behind them. */
  lemma EarlierInOrder(all: seq<Line>, part: seq<Line>, k: nat, level: nat, order: OrderedEdges, first: seq<Project>,
                       p: Project, v0: set<Project>)
    requires Embeds(all, 0, part) && k < |part| && TurnAt(part, k, level, order, first, v0)
    ensures TurnAt(all, k, level, order, first + [p], v0)
  {
    assert all[k] == part[k] && first <= first + [p];
    if part[k].indent == level {
      InTurnThere(all, 0, part, k, v0, v0, first, first + [p], part[k].project);
    } else {
      var j: nat :| Hangs(part, j, k) && InTurn(part, k, v0, order(part[j].project), part[k].project);
      HangsThere(all, 0, part, j, k);
      InTurnThere(all, 0, part, k, v0, v0, order(part[j].project), order(part[j].project), part[k].project);
    }
  }

  lemma BelowHangs(all: seq<Line>, at: nat, part: seq<Line>, k: nat, level: nat)
    requires Embeds(all, at, part) && 0 < at && k < |part| && all[at - 1].indent == level
    requires part[k].indent == level + 1 && forall m :: 0 <= m < k ==> part[m].indent >= level + 1
    ensures Hangs(all, at - 1, at + k)
  {
    assert all[at + k] == part[k];
    forall m | at - 1 < m < at + k
      ensures all[m].indent >= all[at + k].indent
    {
      assert all[m] == part[m - at];
    }
  }

  /** And so do the lines below a new one. */
  lemma BelowInOrder(all: seq<Line>, at: nat, below: seq<Line>, k: nat, level: nat, order: OrderedEdges,
                     first: seq<Project>, v0: set<Project>, v1: set<Project>)
    requires Embeds(all, at, below) && 0 < at && k < |below| && all[at - 1].indent == level
    requires forall m: nat :: m < |below| ==> below[m].indent >= level + 1
    requires TurnAt(below, k, level + 1, order, order(all[at - 1].project), v1)
    requires forall y :: y in v1 ==> Known(all, at, v0, y)
    ensures TurnAt(all, at + k, level, order, first, v0)
  {
    var list := order(all[at - 1].project);
    assert all[at + k] == below[k];
    if below[k].indent == level + 1 {
      BelowHangs(all, at, below, k, level);
      InTurnThere(all, at, below, k, v0, v1, list, list, below[k].project);
    } else {
      var j: nat :| Hangs(below, j, k) && InTurn(below, k, v1, order(below[j].project), below[k].project);
      HangsThere(all, at, below, j, k);
      InTurnThere(all, at, below, k, v0, v1, order(below[j].project), order(below[j].project), below[k].project);
    }
  }

  /** All of v1 was visited before or is on one of the first lines. */
  lemma VisitedIsKnown(all: seq<Line>, part: seq<Line>, v0: set<Project>, v1: set<Project>, x: Project)
    requires Embeds(all, 0, part) && NamesOnce(part, v1 - v0) && x in v1
    ensures Known(all, |part|, v0, x)
  {
    if x !in v0 {
      assert x in ToSet(Projects(part));
      var m: nat :| m < |Projects(part)| && Projects(part)[m] == x;
      assert all[m] == part[m];
    }
  }

  lemma OrderGrows(lines: seq<Line>, level: nat, order: OrderedEdges, first: seq<Project>, v0: set<Project>,
                   v1: set<Project>, p: Project, below: seq<Line>)
    requires InOrder(lines, level, order, first, v0) && NamesOnce(lines, v1 - v0) && ToSet(first) <= v1
    requires InOrder(below, level + 1, order, order(p), v1 + {p})
    requires forall m: nat :: m < |below| ==> below[m].indent >= level + 1
    ensures InOrder(lines + [Line(level, p)] + below, level, order, first + [p], v0)
  {
    var all, n := lines + [Line(level, p)] + below, |lines|;
    assert all[n] == Line(level, p);
    assert Embeds(all, 0, lines) && Embeds(all, n + 1, below);
    AllKnown(all, lines, v0, v1, p);
    forall k: nat | k < |all|
      ensures TurnAt(all, k, level, order, first + [p], v0)
    {
      if k < n {
        EarlierTurn(all, lines, k, level, order, first, p, v0);
      } else if k == n {
        NewInTurn(all, n, v0, v1, first, p);
      } else {
        BelowTurn(all, n, below, k - n - 1, level, order, first + [p], v0, v1 + {p});
      }
    }
  }

  lemma EarlierTurn(all: seq<Line>, lines: seq<Line>, k: nat, level: nat, order: OrderedEdges, first: seq<Project>,
                    p: Project, v0: set<Project>)
    requires Embeds(all, 0, lines) && k < |lines| && InOrder(lines, level, order, first, v0)
    ensures k < |all| && TurnAt(all, k, level, order, first + [p], v0)
  {
    assert TurnAt(lines, k, level, order, first, v0);
    EarlierInOrder(all, lines, k, level, order, first, p, v0);
  }

  lemma BelowTurn(all: seq<Line>, n: nat, below: seq<Line>, k: nat, level: nat, order: OrderedEdges,
                  first: seq<Project>, v0: set<Project>, v1: set<Project>)
    requires Embeds(all, n + 1, below) && k < |below| && all[n].indent == level
    requires forall m: nat :: m < |below| ==> below[m].indent >= level + 1
    requires InOrder(below, level + 1, order, order(all[n].project), v1)
    requires forall y :: y in v1 ==> Known(all, n + 1, v0, y)
    ensures n + 1 + k < |all| && TurnAt(all, n + 1 + k, level, order, first, v0)
  {
    assert TurnAt(below, k, level + 1, order, order(all[n].project), v1);
    BelowInOrder(all, n + 1, below, k, level, order, first, v0, v1);
  }

  lemma AllKnown(all: seq<Line>, lines: seq<Line>, v0: set<Project>, v1: set<Project>, p: Project)
    requires Embeds(all, 0, lines) && NamesOnce(lines, v1 - v0) && |lines| < |all| && all[|lines|].project == p
    ensures forall y :: y in v1 ==> Known(all, |lines|, v0, y)
    ensures forall y :: y in v1 + {p} ==> Known(all, |lines| + 1, v0, y)
  {
    forall y | y in v1
      ensures Known(all, |lines|, v0, y) && Known(all, |lines| + 1, v0, y)
    {
      VisitedIsKnown(all, lines, v0, v1, y);
    }
    assert Known(all, |lines| + 1, v0, p);
  }

  lemma NewInTurn(all: seq<Line>, n: nat, v0: set<Project>, v1: set<Project>, first: seq<Project>, p: Project)
    requires ToSet(first) <= v1 && forall y :: y in v1 ==> Known(all, n, v0, y)
    ensures InTurn(all, n, v0, first + [p], p)
  {
    assert (first + [p])[|first|] == p;
    forall h: nat | h < |first|
      ensures Known(all, n, v0, (first + [p])[h])
    {
      assert first[h] in ToSet(first);
    }
  }

  lemma StaysInOrder(lines: seq<Line>, level: nat, order: OrderedEdges, first: seq<Project>, p: Project,
                     v0: set<Project>)
    requires InOrder(lines, level, order, first, v0)
    ensures InOrder(lines, level, order, first + [p], v0)
  {
    assert Embeds(lines, 0, lines);
    forall k: nat | k < |lines|
      ensures TurnAt(lines, k, level, order, first + [p], v0)
    {
      assert TurnAt(lines, k, level, order, first, v0);
      EarlierInOrder(lines, lines, k, level, order, first, p, v0);
    }
  }

  lemma EarlierDone(all: seq<Line>, part: seq<Line>, j: nat, next: Edges, v0: set<Project>)
    requires Embeds(all, 0, part) && j < |part| && DoneBelow(part, j, next, v0)
    ensures DoneBelow(all, j, next, v0)
  {
    assert all[j] == part[j];
    forall x | x in next(all[j].project) && x !in v0
      ensures exists m: nat :: NotBehind(all, j, m) && all[m].project == x
    {
      var m: nat :| NotBehind(part, j, m) && part[m].project == x;
      assert all[m] == part[m];
      forall e: nat | j < e < |all| && all[e].indent <= all[j].indent
        ensures m < e
      {
        if e < |part| {
          assert all[e] == part[e];
        }
      }
      assert NotBehind(all, j, m);
    }
  }

  lemma BelowDone(all: seq<Line>, at: nat, below: seq<Line>, j: nat, next: Edges, v0: set<Project>, v1: set<Project>)
    requires Embeds(all, at, below) && at + |below| == |all| && j < |below| && DoneBelow(below, j, next, v1)
    requires forall y :: y in v1 ==> Known(all, at, v0, y)
    ensures DoneBelow(all, at + j, next, v0)
  {
    assert all[at + j] == below[j];
    forall x | x in next(all[at + j].project) && x !in v0
      ensures exists m: nat :: NotBehind(all, at + j, m) && all[m].project == x
    {
      if x in v1 {
        var m: nat :| m < at && m < |all| && all[m].project == x;
        assert NotBehind(all, at + j, m);
      } else {
        var m: nat :| NotBehind(below, j, m) && below[m].project == x;
        assert all[at + m] == below[m];
        forall e: nat | at + j < e < |all| && all[e].indent <= all[at + j].indent
          ensures at + m < e
        {
          assert all[e] == below[e - at];
        }
        assert NotBehind(all, at + j, at + m);
      }
    }
  }

  /** All of v2 was visited before or is on one of the lines. */
  lemma NewDone(all: seq<Line>, n: nat, next: Edges, v0: set<Project>, v2: set<Project>)
    requires n < |all| && next(all[n].project) <= v2 && NamesOnce(all, v2 - v0)
    requires forall e: nat :: n < e < |all| ==> all[e].indent > all[n].indent
    ensures DoneBelow(all, n, next, v0)
  {
    forall x | x in next(all[n].project) && x !in v0
      ensures exists m: nat :: NotBehind(all, n, m) && all[m].project == x
    {
      assert x in ToSet(Projects(all));
      var m: nat :| m < |Projects(all)| && Projects(all)[m] == x;
      assert NotBehind(all, n, m);
    }
  }

  lemma DepthGrows(lines: seq<Line>, level: nat, next: Edges, v0: set<Project>, v1: set<Project>, p: Project,
                   below: seq<Line>, v2: set<Project>)
    requires DepthFirst(lines, next, v0) && NamesOnce(lines, v1 - v0)
    requires DepthFirst(below, next, v1 + {p}) && next(p) <= v2
    requires NamesOnce(lines + [Line(level, p)] + below, v2 - v0)
    requires forall m: nat :: m < |below| ==> below[m].indent >= level + 1
    ensures DepthFirst(lines + [Line(level, p)] + below, next, v0)
  {
    var all, n := lines + [Line(level, p)] + below, |lines|;
    assert all[n] == Line(level, p);
    assert Embeds(all, 0, lines) && Embeds(all, n + 1, below);
    AllKnown(all, lines, v0, v1, p);
    forall j: nat | j < |all|
      ensures DoneBelow(all, j, next, v0)
    {
      if j < n {
        assert DoneBelow(lines, j, next, v0);
        EarlierDone(all, lines, j, next, v0);
      } else if j == n {
        assert forall e: nat :: n < e < |all| ==> all[e] == below[e - n - 1];
        NewDone(all, n, next, v0, v2);
      } else {
        assert DoneBelow(below, j - n - 1, next, v1 + {p});
        BelowDone(all, n + 1, below, j - n - 1, next, v0, v1 + {p});
      }
    }
  }

  // ------------------------------------------------------------- the walk, line by line

  /** The lines printed while the visited set went from v0 to v1. */
  ghost predicate Printed(order: OrderedEdges, level: nat, first: seq<Project>, v0: set<Project>, v1: set<Project>,
                          lines: seq<Line>) {
    && Walked(EdgesOf(order), ToSet(first), v0, v1)
    && Forest(lines, level, EdgesOf(order), ToSet(first))
    && NamesOnce(lines, v1 - v0)
    && InOrder(lines, level, order, first, v0)
    && DepthFirst(lines, EdgesOf(order), v0)
  }

  lemma ForestIsIndented(lines: seq<Line>, level: nat, next: Edges, start: set<Project>)
    requires Forest(lines, level, next, start)
    ensures forall m: nat :: m < |lines| ==> lines[m].indent >= level
  {
    forall m: nat | m < |lines|
      ensures lines[m].indent >= level
    {
      assert FitsAt(lines, m, level, next, start);
    }
  }

  lemma PrintedMore(order: OrderedEdges, level: nat, first: seq<Project>, v0: set<Project>, v1: set<Project>,
                    lines: seq<Line>, p: Project, v2: set<Project>, below: seq<Line>)
    requires Printed(order, level, first, v0, v1, lines) && p !in v1
    requires Printed(order, level + 1, order(p), v1 + {p}, v2, below)
    ensures Printed(order, level, first + [p], v0, v2, lines + [Line(level, p)] + below)
  {
    var next := EdgesOf(order);
    assert ToSet(first + [p]) == ToSet(first) + {p};
    WalkedOn(next, ToSet(first), p, v0, v1, v2);
    ForestGrows(lines, level, next, ToSet(first), p, below);
    NamesGrow(lines, v0, v1, Line(level, p), below, v2);
    ForestIsIndented(below, level + 1, next, next(p));
    OrderGrows(lines, level, order, first, v0, v1, p, below);
    DepthGrows(lines, level, next, v0, v1, p, below, v2);
  }

  lemma PrintedBefore(order: OrderedEdges, level: nat, first: seq<Project>, v0: set<Project>, v1: set<Project>,
                      lines: seq<Line>, p: Project)
    requires Printed(order, level, first, v0, v1, lines) && p in v1
    ensures Printed(order, level, first + [p], v0, v1, lines)
  {
    var next := EdgesOf(order);
    assert ToSet(first + [p]) == ToSet(first) + {p};
    AlreadyVisited(next, ToSet(first), p, v0, v1);
    forall k: nat | k < |lines|
      ensures FitsAt(lines, k, level, next, ToSet(first) + {p})
    {
      assert FitsAt(lines, k, level, next, ToSet(first));
    }
    StaysInOrder(lines, level, order, first, p, v0);
  }

  lemma Regroup(a: seq<Line>, b: seq<Line>, c: seq<Line>, d: seq<Line>)
    ensures a + b + c + d == a + (b + c + d)
  {
  }

  /** Each reachable project on one line, below a project that depends on it, and nothing else; in
      the order of the lists, depth first. */
  ghost predicate IsAnswer(lines: seq<Line>, order: OrderedEdges, first: seq<Project>) {
    && Distinct(Projects(lines))
    && (forall p :: p in Projects(lines) <==> Reaches(EdgesOf(order), ToSet(first), p))
    && Forest(lines, 0, EdgesOf(order), ToSet(first))
    && InOrder(lines, 0, order, first, {})
    && DepthFirst(lines, EdgesOf(order), {})
  }

  lemma PrintedIsAnswer(order: OrderedEdges, first: seq<Project>, after: set<Project>, lines: seq<Line>)
    requires Printed(order, 0, first, {}, after, lines)
    ensures IsAnswer(lines, order, first)
  {
    WalkedIsReached(EdgesOf(order), ToSet(first), after);
    assert after - {} == after;
    forall p
      ensures p in Projects(lines) <==> p in after
    {
      assert p in ToSet(Projects(lines)) <==> p in after - {};
    }
  }

  // ------------------------------------------------------------- there is only one answer

  lemma OnlyOneTurn(a: seq<Line>, b: seq<Line>, k: nat, list: seq<Project>)
    requires k < |a| && k < |b| && a[..k] == b[..k] && Distinct(Projects(a)) && Distinct(Projects(b))
    requires InTurn(a, k, {}, list, a[k].project) && InTurn(b, k, {}, list, b[k].project)
    ensures a[k].project == b[k].project
  {
    var i: nat :| i < |list| && list[i] == a[k].project && forall h: nat :: h < i ==> Known(a, k, {}, list[h]);
    var j: nat :| j < |list| && list[j] == b[k].project && forall h: nat :: h < j ==> Known(b, k, {}, list[h]);
    if i < j {
      assert Known(b, k, {}, list[i]);
      NotYetPrinted(b, a, k, list[i]);
    } else if j < i {
      assert Known(a, k, {}, list[j]);
      NotYetPrinted(a, b, k, list[j]);
    }
  }

  lemma NotYetPrinted(a: seq<Line>, b: seq<Line>, k: nat, x: Project)
    requires k < |a| && k < |b| && a[..k] == b[..k] && Distinct(Projects(b)) && Known(a, k, {}, x)
    ensures b[k].project != x
  {
    var m: nat :| m < k && m < |a| && a[m].project == x;
    assert b[..k][m] == a[..k][m] && Projects(b)[m] == x && Projects(b)[k] == b[k].project;
  }

  /** The place a line hangs from is determined by the lines before it and its indentation. */
  lemma OnePlace(a: seq<Line>, b: seq<Line>, i: nat, j: nat, k: nat)
    requires k < |a| && k < |b| && a[..k] == b[..k] && a[k].indent == b[k].indent && Hangs(a, i, k) && Hangs(b, j, k)
    ensures i == j
  {
    assert a[..k][i] == b[..k][i] && a[..k][j] == b[..k][j];
  }

  /** No line goes back to a higher level while something is to be printed below. */
  lemma NotShallower(a: seq<Line>, b: seq<Line>, k: nat, order: OrderedEdges, first: seq<Project>)
    requires IsAnswer(a, order, first) && IsAnswer(b, order, first) && k < |a| && k < |b| && a[..k] == b[..k]
    ensures a[k].indent <= b[k].indent
  {
    if a[k].indent > b[k].indent {
      assert FitsAt(a, k, 0, EdgesOf(order), ToSet(first));
      var j: nat :| Hangs(a, j, k) && a[k].project in EdgesOf(order)(a[j].project);
      assert a[..k][j] == b[..k][j];
      assert DoneBelow(b, j, EdgesOf(order), {});
      var m: nat :| NotBehind(b, j, m) && b[m].project == a[k].project;
      assert Known(b, k, {}, a[k].project);
      NotYetPrinted(b, a, k, a[k].project);
    }
  }

  lemma NextLineSame(a: seq<Line>, b: seq<Line>, k: nat, order: OrderedEdges, first: seq<Project>)
    requires IsAnswer(a, order, first) && IsAnswer(b, order, first) && k < |a| && k < |b| && a[..k] == b[..k]
    ensures a[k] == b[k]
  {
    NotShallower(a, b, k, order, first);
    NotShallower(b, a, k, order, first);
    assert TurnAt(a, k, 0, order, first, {}) && TurnAt(b, k, 0, order, first, {});
    if a[k].indent == 0 {
      OnlyOneTurn(a, b, k, first);
    } else {
      var i: nat :| Hangs(a, i, k) && InTurn(a, k, {}, order(a[i].project), a[k].project);
      var j: nat :| Hangs(b, j, k) && InTurn(b, k, {}, order(b[j].project), b[k].project);
      OnePlace(a, b, i, j, k);
      assert a[..k][i] == b[..k][i];
      OnlyOneTurn(a, b, k, order(a[i].project));
    }
  }

  lemma {:induction false} SameLines(a: seq<Line>, b: seq<Line>, k: nat, order: OrderedEdges, first: seq<Project>)
    requires IsAnswer(a, order, first) && IsAnswer(b, order, first) && k <= |a| == |b|
    ensures a[..k] == b[..k]
  {
    if k == 0 {
    } else {
      SameLines(a, b, k - 1, order, first);
      NextLineSame(a, b, k - 1, order, first);
      assert a[..k] == a[..k - 1] + [a[k - 1]] && b[..k] == b[..k - 1] + [b[k - 1]];
    }
  }

  /** What is printed is determined, line by line, by the lists. */
  lemma OneAnswer(a: seq<Line>, b: seq<Line>, order: OrderedEdges, first: seq<Project>)
    requires IsAnswer(a, order, first) && IsAnswer(b, order, first)
    ensures a == b
  {
    SameMultiset(Projects(a), Projects(b));
    SameMembers(Projects(a), Projects(b));
    SameLines(a, b, |a|, order, first);
    assert a[..|a|] == a && b[..|b|] == b;
  }
}
