/**
 Sequencing projects so that dependencies are built first (darwinbuild/buildorder).
 */
module BuildOrder {
  import opened TextOrder

  type Project = string

  type Graph = map<Project, seq<Project>>

  // ------------------------------------------------------------- which dependencies count

  const DEP_EXCEPTIONS: map<Project, set<Project>> :=
    map["passwordserver_sasl" := {"Kerberos"}, "IOKitUser" := {"configd"}, "configd" := {"configd_plugins"}]

  datatype Setup = Setup(compilers: set<Project>, xref: map<Project, seq<Project>>)

  /** d is a dependency of p that the sequencer respects: not p itself, not a compiler, being
      built too, and not one of the listed exceptions. */
  predicate Kept(setup: Setup, listed: set<Project>, p: Project, d: Project) {
    && p in setup.xref && d in setup.xref[p]
    && d != p
    && d !in setup.compilers
    && d in listed
    && !(p in DEP_EXCEPTIONS && d in DEP_EXCEPTIONS[p])
  }

  /** The dependency graph restricted to what is being built. */
  ghost predicate IsGraph(deps: Graph, setup: Setup, projects: seq<Project>) {
    && (forall p :: p in deps <==> p in projects)
    && (forall p, d :: p in deps ==> (d in deps[p] <==> Kept(setup, ToSet(projects), p, d)))
  }

  method DependencyGraph(setup: Setup, projects: seq<Project>) returns (deps: Graph)
    ensures IsGraph(deps, setup, projects)
  {
    var listed := ToSet(projects);
    deps := map[];
    for i := 0 to |projects|
      invariant forall p :: p in deps <==> p in projects[..i]
      invariant forall p, d :: p in deps ==> (d in deps[p] <==> Kept(setup, listed, p, d))
    {
      var proj := projects[i];
      var found := [];
      if proj in setup.xref {
        var all := setup.xref[proj];
        for j := 0 to |all|
          invariant forall d :: d in found <==> d in all[..j] && Kept(setup, listed, proj, d)
        {
          assert all[..j + 1] == all[..j] + [all[j]];
          if Kept(setup, listed, proj, all[j]) {
            found := found + [all[j]];
          }
        }
        assert all[..|all|] == all;
      }
      assert projects[..i + 1] == projects[..i] + [proj];
      deps := deps[proj := found];
    }
    assert projects[..|projects|] == projects;
  }

  // ------------------------------------------------------------- what an order means

  /** Each project comes after all its dependencies. */
  ghost predicate DependenciesFirst(order: seq<Project>, deps: Graph) {
    forall i, d :: 0 <= i < |order| && order[i] in deps && d in deps[order[i]] ==> d in order[..i]
  }

  ghost predicate Follows(walk: seq<Project>, deps: Graph)
    requires forall i :: 0 <= i < |walk| ==> walk[i] in deps
  {
    forall i, j :: 0 <= i < j < |walk| && j == i + 1 ==> walk[j] in deps[walk[i]]
  }

  /** Each project of the list depends on the next one, and the last on the first. */
  ghost predicate IsCycle(cycle: seq<Project>, deps: Graph) {
    && cycle != []
    && (forall i :: 0 <= i < |cycle| ==> cycle[i] in deps)
    && Follows(cycle, deps)
    && cycle[0] in deps[cycle[|cycle| - 1]]
  }

  ghost predicate Cyclic(deps: Graph) {
    exists cycle :: IsCycle(cycle, deps)
  }

  /** Dependencies stay within the graph. */
  ghost predicate Closed(deps: Graph) {
    forall p, d :: p in deps && d in deps[p] ==> d in deps
  }

  // ------------------------------------------------------------- an order excludes cycles

  lemma After(cycle: seq<Project>, deps: Graph, p: Project) returns (next: Project)
    requires IsCycle(cycle, deps) && p in cycle
    ensures p in deps && next in cycle && next in deps[p]
  {
    var k :| 0 <= k < |cycle| && cycle[k] == p;
    next := cycle[if k + 1 < |cycle| then k + 1 else 0];
  }

  lemma {:induction false} NotOnCycle(order: seq<Project>, deps: Graph, cycle: seq<Project>, n: nat)
    requires DependenciesFirst(order, deps) && IsCycle(cycle, deps) && n <= |order|
    ensures forall i :: 0 <= i < n ==> order[i] !in cycle
  {
    if n == 0 {
    } else {
      NotOnCycle(order, deps, cycle, n - 1);
      if order[n - 1] in cycle {
        var next := After(cycle, deps, order[n - 1]);
      }
    }
  }

  lemma OrderedIsAcyclic(order: seq<Project>, deps: Graph)
    requires DependenciesFirst(order, deps)
    requires forall p :: p in deps ==> p in order
    ensures !Cyclic(deps)
  {
    forall cycle
      ensures !IsCycle(cycle, deps)
    {
      if IsCycle(cycle, deps) {
        var p := cycle[0];
        assert p in cycle && p in deps;
        var i :| 0 <= i < |order| && order[i] == p;
        NotOnCycle(order, deps, cycle, |order|);
      }
    }
  }

  // ------------------------------------------------------------- being stuck means a cycle

  ghost predicate Waits(p: Project, waiting: set<Project>, deps: Graph) {
    p in deps && exists d :: d in deps[p] && d in waiting
  }

  /** Everybody in the set waits for somebody in the set. */
  ghost predicate Stuck(waiting: set<Project>, deps: Graph) {
    && waiting != {}
    && waiting <= deps.Keys
    && forall p {:trigger Waits(p, waiting, deps)} :: p in waiting ==> Waits(p, waiting, deps)
  }

  /** Following blockers for n steps. */
  lemma {:induction false} Chase(waiting: set<Project>, deps: Graph, n: nat) returns (walk: seq<Project>)
    requires Stuck(waiting, deps)
    ensures |walk| == n + 1
    ensures forall i :: 0 <= i < |walk| ==> walk[i] in waiting
    ensures Follows(walk, deps)
  {
    if n == 0 {
      var p :| p in waiting;
      walk := [p];
    } else {
      var shorter := Chase(waiting, deps, n - 1);
      var p := shorter[n - 1];
      assert Waits(p, waiting, deps);
      var d :| d in deps[p] && d in waiting;
      walk := shorter + [d];
    }
  }

  /** A list longer than the set it draws from repeats itself. */
  lemma Repeat(walk: seq<Project>, waiting: set<Project>) returns (i: nat, j: nat)
    requires |walk| > |waiting|
    requires forall k :: 0 <= k < |walk| ==> walk[k] in waiting
    ensures i < j < |walk| && walk[i] == walk[j]
  {
    if Distinct(walk) {
      DistinctFits(walk, waiting);
    }
    i, j :| 0 <= i < j < |walk| && walk[i] == walk[j];
  }

  lemma LoopIsCycle(walk: seq<Project>, i: nat, j: nat, deps: Graph)
    requires i < j < |walk| && walk[i] == walk[j]
    requires forall k :: 0 <= k < |walk| ==> walk[k] in deps
    requires Follows(walk, deps)
    ensures Cyclic(deps)
  {
    var cycle := walk[i..j];
    forall k, l | 0 <= k < l < |cycle| && l == k + 1
      ensures cycle[l] in deps[cycle[k]]
    {
      assert cycle[k] == walk[i + k] && cycle[l] == walk[i + l];
    }
    assert cycle[|cycle| - 1] == walk[j - 1] && cycle[0] == walk[j];
    assert IsCycle(cycle, deps);
  }

  lemma LongChaseIsCyclic(walk: seq<Project>, waiting: set<Project>, deps: Graph)
    requires |walk| > |waiting| && waiting <= deps.Keys
    requires forall k :: 0 <= k < |walk| ==> walk[k] in waiting
    requires Follows(walk, deps)
    ensures Cyclic(deps)
  {
    var i, j := Repeat(walk, waiting);
    LoopIsCycle(walk, i, j, deps);
  }

  lemma StuckIsCyclic(waiting: set<Project>, deps: Graph)
    requires Stuck(waiting, deps)
    ensures Cyclic(deps)
  {
    var walk := Chase(waiting, deps, |waiting|);
    LongChaseIsCyclic(walk, waiting, deps);
  }

  // ------------------------------------------------------------- the sequencer

  const SENTINEL := "SENTINEL"

  datatype Outcome = Ordered(order: seq<Project>) | Aborted(remaining: seq<Project>)

  ghost predicate Unmet(p: Project, built: set<Project>, deps: Graph) {
    p in deps && exists d :: d in deps[p] && d !in built
  }

  method AllBuilt(needed: seq<Project>, built: set<Project>) returns (met: bool)
    ensures met <==> forall d :: d in needed ==> d in built
  {
    for i := 0 to |needed|
      invariant forall j :: 0 <= j < i ==> needed[j] in built
    {
      if needed[i] !in built {
        return false;
      }
    }
    return true;
  }

  /** The circular queue: its first sentinel stands at `mark`, and since it last went to the
      back, either something was built or everything behind it was found unmet. */
  ghost predicate Rotating(queue: seq<Project>, mark: nat, order: seq<Project>, builtOne: bool,
                           projects: seq<Project>, deps: Graph) {
    && mark < |queue| && queue[mark] == SENTINEL
    && (forall i :: 0 <= i < mark ==> queue[i] != SENTINEL)
    && (SENTINEL !in projects ==>
          forall i :: mark < i < |queue| ==>
            queue[i] != SENTINEL && (builtOne || Unmet(queue[i], ToSet(order), deps)))
  }

  /** Every project is either ordered or still queued, once for each time it was listed. */
  ghost predicate Accounted(queue: seq<Project>, order: seq<Project>, projects: seq<Project>) {
    && SENTINEL !in order
    && multiset(order) + multiset(queue) == multiset(projects) + multiset{SENTINEL}
  }

  lemma {:induction false} FirstMark(queue: seq<Project>) returns (first: nat)
    requires SENTINEL in queue
    ensures first < |queue| && queue[first] == SENTINEL
    ensures forall i :: 0 <= i < first ==> queue[i] != SENTINEL
  {
    if queue[0] == SENTINEL {
      first := 0;
    } else {
      var rest := queue[1..];
      assert queue == [queue[0]] + rest;
      var f := FirstMark(rest);
      first := f + 1;
    }
  }

  lemma TurnRound(queue: seq<Project>, order: seq<Project>, projects: seq<Project>, deps: Graph)
    returns (mark: nat)
    requires queue != [] && queue[0] == SENTINEL
    requires Rotating(queue, 0, order, true, projects, deps) && Accounted(queue, order, projects)
    ensures Rotating(queue[1..] + [SENTINEL], mark, order, false, projects, deps)
    ensures Accounted(queue[1..] + [SENTINEL], order, projects)
  {
    var turned := queue[1..] + [SENTINEL];
    assert turned[|turned| - 1] == SENTINEL;
    mark := FirstMark(turned);
    assert queue == [SENTINEL] + queue[1..];
    assert multiset(turned) == multiset(queue);
  }

  lemma SetAside(queue: seq<Project>, mark: nat, order: seq<Project>, builtOne: bool,
                 projects: seq<Project>, deps: Graph)
    requires queue != [] && queue[0] != SENTINEL && Unmet(queue[0], ToSet(order), deps)
    requires Rotating(queue, mark, order, builtOne, projects, deps) && Accounted(queue, order, projects)
    ensures mark > 0 && Rotating(queue[1..] + [queue[0]], mark - 1, order, builtOne, projects, deps)
    ensures Accounted(queue[1..] + [queue[0]], order, projects)
  {
    assert queue == [queue[0]] + queue[1..];
    assert multiset(queue[1..] + [queue[0]]) == multiset(queue);
  }

  lemma TakeOut(queue: seq<Project>, mark: nat, order: seq<Project>, builtOne: bool,
                projects: seq<Project>, deps: Graph)
    requires queue != [] && queue[0] != SENTINEL
    requires Rotating(queue, mark, order, builtOne, projects, deps) && Accounted(queue, order, projects)
    ensures mark > 0 && Rotating(queue[1..], mark - 1, order + [queue[0]], true, projects, deps)
    ensures Accounted(queue[1..], order + [queue[0]], projects)
  {
    assert queue == [queue[0]] + queue[1..];
  }

  lemma QueuedIsListed(queue: seq<Project>, order: seq<Project>, projects: seq<Project>)
    requires queue != [] && queue[0] != SENTINEL && Accounted(queue, order, projects)
    ensures queue[0] in projects
  {
    assert queue[0] in multiset(queue);
    assert queue[0] in multiset(order) + multiset(queue);
    assert queue[0] in multiset(projects);
  }

  lemma StillQueued(d: Project, queue: seq<Project>, order: seq<Project>, projects: seq<Project>)
    requires d in projects && d !in order && SENTINEL !in projects
    requires Accounted(queue, order, projects)
    requires queue != [] && queue[0] == SENTINEL
    ensures d in queue[1..]
  {
    assert d in multiset(projects);
    assert d in multiset(order) + multiset(queue);
    assert d in multiset(queue) && d != SENTINEL;
    assert queue == [SENTINEL] + queue[1..];
  }

  /** When a whole round built nothing, the projects left wait for each other. */
  lemma NothingMovedIsStuck(queue: seq<Project>, order: seq<Project>, projects: seq<Project>, deps: Graph)
    requires Closed(deps) && forall p :: p in deps <==> p in projects
    requires SENTINEL !in projects && |queue| > 1
    requires Rotating(queue, 0, order, false, projects, deps) && Accounted(queue, order, projects)
    ensures Stuck(ToSet(queue[1..]), deps) && Cyclic(deps)
  {
    var rest := queue[1..];
    assert queue == [SENTINEL] + rest;
    var waiting := ToSet(rest);
    assert rest[0] in waiting;
    forall p | p in waiting
      ensures Waits(p, waiting, deps)
    {
      var i :| 0 <= i < |rest| && rest[i] == p;
      assert Unmet(queue[i + 1], ToSet(order), deps);
      var d :| d in deps[p] && d !in ToSet(order);
      StillQueued(d, queue, order, projects);
    }
    StuckIsCyclic(waiting, deps);
  }

  /** What an abort leaves behind: the rest could be ordered, and unless a project bears the
      sentinel's name, each project left waits for a project left. */
  ghost predicate Leaves(order: seq<Project>, remaining: seq<Project>, projects: seq<Project>, deps: Graph) {
    && multiset(order) + multiset(remaining) == multiset(projects)
    && DependenciesFirst(order, deps)
    && (SENTINEL !in projects ==> Stuck(ToSet(remaining), deps))
  }

  lemma WhatIsLeft(queue: seq<Project>, order: seq<Project>, projects: seq<Project>, deps: Graph)
    requires Closed(deps) && forall p :: p in deps <==> p in projects
    requires |queue| > 1 && DependenciesFirst(order, deps)
    requires queue[0] == SENTINEL && Accounted(queue, order, projects)
    requires SENTINEL !in projects ==> Rotating(queue, 0, order, false, projects, deps)
    ensures Leaves(order, queue[1..], projects, deps)
  {
    var rest := queue[1..];
    assert queue == [SENTINEL] + rest;
    assert multiset(order) + multiset(rest) == multiset(projects) by {
      var whole := multiset(order) + multiset(queue);
      assert multiset(queue) == multiset{SENTINEL} + multiset(rest);
      assert whole - multiset{SENTINEL} == multiset(order) + multiset(rest);
    }
    if SENTINEL !in projects {
      NothingMovedIsStuck(queue, order, projects, deps);
    }
  }

  lemma {:induction false} StuckStaysOut(order: seq<Project>, deps: Graph, waiting: set<Project>, n: nat)
    requires DependenciesFirst(order, deps) && Stuck(waiting, deps) && n <= |order|
    ensures forall i :: 0 <= i < n ==> order[i] !in waiting
  {
    if n == 0 {
    } else {
      StuckStaysOut(order, deps, waiting, n - 1);
      assert order[n - 1] in waiting ==> Waits(order[n - 1], waiting, deps);
    }
  }

  lemma StuckIsLeft(order: seq<Project>, remaining: seq<Project>, projects: seq<Project>, deps: Graph,
                    waiting: set<Project>)
    requires forall q :: q in deps <==> q in projects
    requires Leaves(order, remaining, projects, deps) && Stuck(waiting, deps)
    ensures forall p :: p in waiting ==> p in remaining
  {
    StuckStaysOut(order, deps, waiting, |order|);
    forall p | p in waiting
      ensures p in remaining
    {
      assert p in multiset(projects);
      assert p in multiset(order) || p in multiset(remaining);
    }
  }

  /** The projects left are exactly those that no order can reach: those in a set of projects each of
      which waits for a project of the set. */
  lemma LeftAreStuck(order: seq<Project>, remaining: seq<Project>, projects: seq<Project>, deps: Graph, p: Project)
    requires forall q :: q in deps <==> q in projects
    requires SENTINEL !in projects && Leaves(order, remaining, projects, deps)
    ensures p in remaining <==> exists waiting :: Stuck(waiting, deps) && p in waiting
  {
    if waiting :| Stuck(waiting, deps) && p in waiting {
      StuckIsLeft(order, remaining, projects, deps, waiting);
    }
    assert p in remaining ==> p in ToSet(remaining);
  }

  // ------------------------------------------------------------- round by round

  ghost predicate Met(p: Project, order: seq<Project>, deps: Graph) {
    p in deps ==> forall d :: d in deps[p] ==> d in order
  }

  /** One round in the order of the list: each project goes to the order if all it waits for is there,
      else to the rest. */
  ghost function Pass(list: seq<Project>, order: seq<Project>, deps: Graph): (r: (seq<Project>, seq<Project>))
    ensures |r.1| <= |list|
  {
    if list == [] then (order, [])
    else if Met(list[0], order, deps) then Pass(list[1..], order + [list[0]], deps)
    else
      var (longer, rest) := Pass(list[1..], order, deps);
      (longer, [list[0]] + rest)
  }

  /** Rounds over what is left, until nothing is left or a round built nothing. */
  ghost function Rounds(list: seq<Project>, order: seq<Project>, deps: Graph): Outcome
    decreases |list|
  {
    if list == [] then Ordered(order)
    else
      var (longer, rest) := Pass(list, order, deps);
      if |rest| == |list| then Aborted(list) else Rounds(rest, longer, deps)
  }

  /** Where it leads when a round is under way: `front` is still to be looked at, `back` was set aside. */
  ghost function RoundsFrom(front: seq<Project>, back: seq<Project>, order: seq<Project>, builtOne: bool, deps: Graph)
    : Outcome
  {
    var (longer, rest) := Pass(front, order, deps);
    if !builtOne && |rest| == |front| && front + back != [] then Aborted(back + front)
    else Rounds(back + rest, longer, deps)
  }

  lemma {:induction false} PassTakesAll(list: seq<Project>, order: seq<Project>, deps: Graph)
    requires DependenciesFirst(order + list, deps)
    ensures Pass(list, order, deps) == (order + list, [])
  {
    if list == [] {
      assert order + list == order;
    } else {
      assert (order + list)[|order|] == list[0] && (order + list)[..|order|] == order;
      assert order + [list[0]] + list[1..] == order + list;
      PassTakesAll(list[1..], order + [list[0]], deps);
    }
  }

  /** A list in which dependencies come first already is left as it is, so that sequencing an order again
      changes nothing. */
  lemma OrderStays(list: seq<Project>, deps: Graph)
    requires DependenciesFirst(list, deps)
    ensures Rounds(list, [], deps) == Ordered(list)
  {
    assert [] + list == list;
    PassTakesAll(list, [], deps);
  }

  lemma NextRound(back: seq<Project>, order: seq<Project>, deps: Graph)
    requires back != []
    ensures RoundsFrom([], back, order, true, deps) == RoundsFrom(back, [], order, false, deps)
  {
    var (longer, rest) := Pass(back, order, deps);
    assert back + [] == back && [] + back == back && [] + rest == rest;
  }

  lemma RoundBuilds(front: seq<Project>, back: seq<Project>, order: seq<Project>, builtOne: bool, deps: Graph)
    requires front != [] && Met(front[0], order, deps)
    ensures RoundsFrom(front, back, order, builtOne, deps) ==
      RoundsFrom(front[1..], back, order + [front[0]], true, deps)
  {
  }

  lemma RoundSetsAside(front: seq<Project>, back: seq<Project>, order: seq<Project>, builtOne: bool, deps: Graph)
    requires front != [] && !Met(front[0], order, deps)
    ensures RoundsFrom(front, back, order, builtOne, deps) ==
      RoundsFrom(front[1..], back + [front[0]], order, builtOne, deps)
  {
    var rest := Pass(front[1..], order, deps).1;
    assert back + ([front[0]] + rest) == back + [front[0]] + rest;
    assert back + front == back + [front[0]] + front[1..];
  }

  /** A queue in mid-round leads to the outcome of the rounds. */
  ghost predicate LeadsTo(queue: seq<Project>, mark: nat, order: seq<Project>, builtOne: bool, deps: Graph,
                          outcome: Outcome)
    requires mark < |queue|
  {
    RoundsFrom(queue[..mark], queue[mark + 1..], order, builtOne, deps) == outcome
  }

  lemma BeginsRounds(queue: seq<Project>, projects: seq<Project>, deps: Graph)
    requires queue == [SENTINEL] + projects
    ensures LeadsTo(queue, 0, [], true, deps, Rounds(projects, [], deps))
  {
    assert projects + [] == projects && queue[1..] == projects && queue[..0] == [];
  }

  lemma TurnsRound(queue: seq<Project>, order: seq<Project>, deps: Graph, outcome: Outcome)
    requires |queue| > 1 && LeadsTo(queue, 0, order, true, deps, outcome)
    ensures LeadsTo(queue[1..] + [queue[0]], |queue| - 1, order, false, deps, outcome)
  {
    var turned := queue[1..] + [queue[0]];
    assert turned[..|queue| - 1] == queue[1..] && turned[|queue|..] == [] && queue[..0] == [];
    NextRound(queue[1..], order, deps);
  }

  lemma BuildsNext(queue: seq<Project>, mark: nat, order: seq<Project>, builtOne: bool, deps: Graph, outcome: Outcome)
    requires 0 < mark < |queue| && LeadsTo(queue, mark, order, builtOne, deps, outcome) && Met(queue[0], order, deps)
    ensures LeadsTo(queue[1..], mark - 1, order + [queue[0]], true, deps, outcome)
  {
    var rest := queue[1..];
    assert rest[..mark - 1] == queue[..mark][1..] && rest[mark..] == queue[mark + 1..];
    RoundBuilds(queue[..mark], queue[mark + 1..], order, builtOne, deps);
  }

  lemma SetsAsideNext(queue: seq<Project>, mark: nat, order: seq<Project>, builtOne: bool, deps: Graph,
                      outcome: Outcome)
    requires 0 < mark < |queue| && LeadsTo(queue, mark, order, builtOne, deps, outcome) && !Met(queue[0], order, deps)
    ensures LeadsTo(queue[1..] + [queue[0]], mark - 1, order, builtOne, deps, outcome)
  {
    var turned := queue[1..] + [queue[0]];
    assert turned[..mark - 1] == queue[..mark][1..] && turned[mark..] == queue[mark + 1..] + [queue[0]];
    RoundSetsAside(queue[..mark], queue[mark + 1..], order, builtOne, deps);
  }

  lemma StopsHere(queue: seq<Project>, order: seq<Project>, deps: Graph, outcome: Outcome)
    requires |queue| > 1 && LeadsTo(queue, 0, order, false, deps, outcome)
    ensures outcome == Aborted(queue[1..])
  {
    assert queue[..0] == [] && queue[1..] + [] == queue[1..];
  }

  lemma EndsHere(queue: seq<Project>, order: seq<Project>, builtOne: bool, deps: Graph, outcome: Outcome)
    requires |queue| == 1 && LeadsTo(queue, 0, order, builtOne, deps, outcome)
    ensures outcome == Ordered(order)
  {
    assert queue[..0] == [] && queue[1..] == [];
  }

  /** With no project of the sentinel's name, the one sentinel's place is the mark. */
  lemma OnlyMark(queue: seq<Project>, mark: nat, order: seq<Project>, builtOne: bool, projects: seq<Project>,
                 deps: Graph, other: nat)
    requires Rotating(queue, mark, order, builtOne, projects, deps) && SENTINEL !in projects
    requires other < |queue| && queue[other] == SENTINEL
    ensures other == mark
  {
  }

  lemma AppendBuilt(order: seq<Project>, deps: Graph, p: Project)
    requires DependenciesFirst(order, deps)
    requires p in deps ==> forall d :: d in deps[p] ==> d in order
    ensures DependenciesFirst(order + [p], deps)
  {
    forall i | 0 <= i <= |order|
      ensures (order + [p])[..i] == order[..i]
    {
    }
    assert order[..|order|] == order;
  }

  lemma EverythingOrdered(order: seq<Project>, projects: seq<Project>)
    requires multiset(order) + multiset([SENTINEL]) == multiset(projects) + multiset{SENTINEL}
    requires SENTINEL !in order
    ensures multiset(order) == multiset(projects)
    ensures SENTINEL !in projects
    ensures forall p :: p in projects ==> p in order
  {
    assert multiset([SENTINEL]) == multiset{SENTINEL};
    forall p: Project
      ensures multiset(order)[p] == multiset(projects)[p]
    {
      assert (multiset(order) + multiset{SENTINEL})[p] == (multiset(projects) + multiset{SENTINEL})[p];
    }
    assert forall p :: p in projects ==> p in multiset(projects);
  }

  // ------------------------------------------------------------- one step of the queue

  /** The queue and the order so far. */
  ghost predicate Sequencing(queue: seq<Project>, mark: nat, order: seq<Project>, builtOne: bool,
                             projects: seq<Project>, deps: Graph) {
    && Rotating(queue, mark, order, builtOne, projects, deps)
    && Accounted(queue, order, projects)
    && DependenciesFirst(order, deps)
    && (SENTINEL !in projects ==> LeadsTo(queue, mark, order, builtOne, deps, Rounds(projects, [], deps)))
  }

  lemma BeginSequence(queue: seq<Project>, projects: seq<Project>, deps: Graph)
    requires queue == [SENTINEL] + projects
    ensures Sequencing(queue, 0, [], true, projects, deps)
  {
    BeginsRounds(queue, projects, deps);
  }

  lemma TurnStep(queue: seq<Project>, mark: nat, order: seq<Project>, projects: seq<Project>, deps: Graph)
    returns (turned: nat)
    requires |queue| > 1 && queue[0] == SENTINEL && Sequencing(queue, mark, order, true, projects, deps)
    ensures Sequencing(queue[1..] + [SENTINEL], turned, order, false, projects, deps)
  {
    turned := TurnRound(queue, order, projects, deps);
    if SENTINEL !in projects {
      TurnsRound(queue, order, deps, Rounds(projects, [], deps));
      OnlyMark(queue[1..] + [SENTINEL], turned, order, false, projects, deps, |queue| - 1);
    }
  }

  lemma BuildStep(queue: seq<Project>, mark: nat, order: seq<Project>, builtOne: bool, projects: seq<Project>,
                  deps: Graph)
    requires |queue| > 1 && queue[0] != SENTINEL && Sequencing(queue, mark, order, builtOne, projects, deps)
    requires Met(queue[0], order, deps)
    ensures mark > 0 && Sequencing(queue[1..], mark - 1, order + [queue[0]], true, projects, deps)
  {
    TakeOut(queue, mark, order, builtOne, projects, deps);
    AppendBuilt(order, deps, queue[0]);
    if SENTINEL !in projects {
      BuildsNext(queue, mark, order, builtOne, deps, Rounds(projects, [], deps));
    }
  }

  lemma AsideStep(queue: seq<Project>, mark: nat, order: seq<Project>, builtOne: bool, projects: seq<Project>,
                  deps: Graph)
    requires |queue| > 1 && queue[0] != SENTINEL && Sequencing(queue, mark, order, builtOne, projects, deps)
    requires queue[0] in deps && !Met(queue[0], order, deps)
    ensures mark > 0 && Sequencing(queue[1..] + [queue[0]], mark - 1, order, builtOne, projects, deps)
  {
    SetAside(queue, mark, order, builtOne, projects, deps);
    if SENTINEL !in projects {
      SetsAsideNext(queue, mark, order, builtOne, deps, Rounds(projects, [], deps));
    }
  }

  /** What an abort says. */
  ghost predicate IsAbort(outcome: Outcome, projects: seq<Project>, deps: Graph) {
    && outcome.Aborted?
    && (SENTINEL in projects || Cyclic(deps))
    && (exists order :: Leaves(order, outcome.remaining, projects, deps))
    && (SENTINEL !in projects ==> outcome == Rounds(projects, [], deps))
  }

  lemma AbortStep(queue: seq<Project>, mark: nat, order: seq<Project>, projects: seq<Project>, deps: Graph)
    requires Closed(deps) && forall p :: p in deps <==> p in projects
    requires |queue| > 1 && queue[0] == SENTINEL && Sequencing(queue, mark, order, false, projects, deps)
    ensures IsAbort(Aborted(queue[1..]), projects, deps)
  {
    WhatIsLeft(queue, order, projects, deps);
    if SENTINEL !in projects {
      NothingMovedIsStuck(queue, order, projects, deps);
      StopsHere(queue, order, deps, Rounds(projects, [], deps));
    }
  }

  lemma EndStep(queue: seq<Project>, mark: nat, order: seq<Project>, builtOne: bool, projects: seq<Project>,
                deps: Graph)
    requires forall p :: p in deps <==> p in projects
    requires |queue| == 1 && Sequencing(queue, mark, order, builtOne, projects, deps)
    ensures multiset(order) == multiset(projects) && DependenciesFirst(order, deps)
    ensures SENTINEL !in projects && !Cyclic(deps) && Ordered(order) == Rounds(projects, [], deps)
  {
    assert queue == [SENTINEL];
    EverythingOrdered(order, projects);
    OrderedIsAcyclic(order, deps);
    EndsHere(queue, order, builtOne, deps, Rounds(projects, [], deps));
  }

  /** Always ends; orders all projects with dependencies first, or gives up, which it does
      exactly when dependencies form a cycle (or a project bears the sentinel's name). It then names
      the projects that are left. Order and remaining projects are those of going through the list
      round by round. */
  method Sequence(projects: seq<Project>, deps: Graph) returns (outcome: Outcome)
    requires Closed(deps) && forall p :: p in deps <==> p in projects
    ensures outcome.Ordered? ==>
      multiset(outcome.order) == multiset(projects) && DependenciesFirst(outcome.order, deps)
    ensures outcome.Aborted? <==> SENTINEL in projects || Cyclic(deps)
    ensures outcome.Aborted? ==> exists order :: Leaves(order, outcome.remaining, projects, deps)
    ensures SENTINEL !in projects ==> outcome == Rounds(projects, [], deps)
  {
    var queue := [SENTINEL] + projects;
    var order := [];
    var built := {};
    var builtOne := true;
    ghost var mark: nat := 0;
    BeginSequence(queue, projects, deps);
    while |queue| > 1
      invariant built == ToSet(order) && Sequencing(queue, mark, order, builtOne, projects, deps)
      decreases |queue|, builtOne, mark
    {
      var proj := queue[0];
      if proj == SENTINEL {
        if !builtOne {
          AbortStep(queue, mark, order, projects, deps);
          return Aborted(queue[1..]);
        }
        mark := TurnStep(queue, mark, order, projects, deps);
        builtOne := false;
        queue := queue[1..] + [proj];
      } else {
        QueuedIsListed(queue, order, projects);
        var met := AllBuilt(deps[proj], built);
        if met {
          BuildStep(queue, mark, order, builtOne, projects, deps);
          order := order + [proj];
          built := built + {proj};
          builtOne := true;
          queue := queue[1..];
        } else {
          AsideStep(queue, mark, order, builtOne, projects, deps);
          queue := queue[1..] + [proj];
        }
        mark := mark - 1;
      }
    }
    EndStep(queue, mark, order, builtOne, projects, deps);
    outcome := Ordered(order);
  }

  function Buildable(list: seq<Project>, noBuild: set<Project>): (r: seq<Project>)
    ensures forall p :: p in r <==> p in list && p !in noBuild
  {
    if list == [] then []
    else if list[0] in noBuild then Buildable(list[1..], noBuild)
    else [list[0]] + Buildable(list[1..], noBuild)
  }

  /** What is to be built stays in the order of the list, as often as it is listed. */
  lemma {:induction false} BuildableKeepsOrder(a: seq<Project>, b: seq<Project>, noBuild: set<Project>)
    ensures Buildable(a + b, noBuild) == Buildable(a, noBuild) + Buildable(b, noBuild)
    ensures (forall p :: p in a ==> p !in noBuild) ==> Buildable(a, noBuild) == a
  {
    if a == [] {
      assert a + b == b;
    } else {
      assert (a + b)[1..] == a[1..] + b;
      BuildableKeepsOrder(a[1..], b, noBuild);
      assert a == [a[0]] + a[1..];
    }
  }

  /** The whole script, from the list of projects and the queried dependencies. */
  method Run(list: seq<Project>, noBuild: set<Project>, setup: Setup) returns (outcome: Outcome, deps: Graph)
    ensures IsGraph(deps, setup, Buildable(list, noBuild))
    ensures outcome.Ordered? ==>
      && multiset(outcome.order) == multiset(Buildable(list, noBuild))
      && DependenciesFirst(outcome.order, deps)
    ensures outcome.Aborted? <==> SENTINEL in Buildable(list, noBuild) || Cyclic(deps)
    ensures outcome.Aborted? ==> exists order :: Leaves(order, outcome.remaining, Buildable(list, noBuild), deps)
    ensures SENTINEL !in Buildable(list, noBuild) ==> outcome == Rounds(Buildable(list, noBuild), [], deps)
  {
    var projects := Buildable(list, noBuild);
    deps := DependencyGraph(setup, projects);
    outcome := Sequence(projects, deps);
  }
}
