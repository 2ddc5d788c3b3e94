/**
 Looking a property up through build inheritance and build aliases (darwinxref/DBDataStore.c).
 */
module PropertyLookup {
  import opened Inheritance
  import opened TextOrder
  import opened Wrappers

  /** A project; the empty name stands for the build itself, as it does in the queries. */
  type Project = string

  /** What single builds say: the value of the property asked for, and what a project is an
      alias of. */
  datatype Store<V> = Store(inherits: Inherits,
                            value: (Build, Project) -> Option<V>,
                            original: (Build, Project) -> Option<Project>)

  /** None of the first n builds has a value. */
  ghost predicate Misses<V>(store: Store<V>, builds: seq<Build>, n: nat, project: Project)
    requires n <= |builds|
  {
    forall i :: 0 <= i < n ==> store.value(builds[i], project).None?
  }

  /** r is the value in the first of the first n builds that has one, and nothing if none has. */
  ghost predicate IsFirstHit<V>(store: Store<V>, builds: seq<Build>, n: nat, project: Project, r: Option<V>)
    requires n <= |builds|
  {
    match r
    case None => Misses(store, builds, n, project)
    case Some(_) => exists i: nat :: i < n && store.value(builds[i], project) == r && Misses(store, builds, i, project)
  }

  // ------------------------------------------------------------- when the walk ends

  /** A build at which the walk up stops: it has a value, makes the project an alias, or
      inherits from nothing. */
  predicate StopsAt<V>(store: Store<V>, build: Build, project: Project) {
    store.value(build, project).Some? || store.original(build, project).Some? || build !in store.inherits
  }

  ghost predicate StopsUp<V>(store: Store<V>, start: Build, project: Project, n: nat) {
    Ancestor(store.inherits, start, n).Some? && StopsAt(store, Ancestor(store.inherits, start, n).value, project)
  }

  /** Some ancestor is one at which the walk stops. */
  ghost predicate LookupEnds<V>(store: Store<V>, start: Build, project: Project) {
    exists n: nat :: StopsUp(store, start, project, n)
  }

  /** Some ancestor has a value for the project or makes it an alias. */
  ghost predicate AncestorKnows<V>(store: Store<V>, start: Build, project: Project) {
    exists n: nat :: Ancestor(store.inherits, start, n).Some? &&
      var build := Ancestor(store.inherits, start, n).value;
      store.value(build, project).Some? || store.original(build, project).Some?
  }

  lemma {:induction false} LastAncestor(inherits: Inherits, start: Build, n: nat) returns (k: nat)
    requires Ancestor(inherits, start, n).None?
    ensures k < n && Ancestor(inherits, start, k).Some? && Ancestor(inherits, start, k).value !in inherits
    decreases n
  {
    if start !in inherits {
      k := 0;
    } else {
      k := LastAncestor(inherits, inherits[start], n - 1);
      k := k + 1;
    }
  }

  /** The walk ends exactly if an ancestor knows something about the project or inheritance has
      no loop; with a loop in which no build knows anything it never ends. */
  lemma EndsExactlyWhen<V>(store: Store<V>, start: Build, project: Project)
    ensures LookupEnds(store, start, project) <==>
      LoopFree(store.inherits, start) || AncestorKnows(store, start, project)
  {
    EndsExactlyWhenLoopFree(store.inherits, start);
    if LoopFree(store.inherits, start) {
      var n: nat :| Ancestor(store.inherits, start, n).None?;
      var k := LastAncestor(store.inherits, start, n);
      assert StopsUp(store, start, project, k);
    }
    if AncestorKnows(store, start, project) {
      var n: nat :| Ancestor(store.inherits, start, n).Some? &&
        var build := Ancestor(store.inherits, start, n).value;
        store.value(build, project).Some? || store.original(build, project).Some?;
      assert StopsUp(store, start, project, n);
    }
    if n: nat :| StopsUp(store, start, project, n) {
      OneUp(store.inherits, start, n);
    }
  }

  // ------------------------------------------------------------- the builds asked

  predicate GoesOn<V>(store: Store<V>, build: Build, next: Build, project: Project) {
    !StopsAt(store, build, project) && store.inherits[build] == next
  }

  /** A walk up from start that goes on as long as nothing stops it. */
  ghost predicate IsWalk<V>(store: Store<V>, start: Build, project: Project, builds: seq<Build>) {
    && builds != [] && builds[0] == start
    && (forall i, j :: 0 <= i < j < |builds| && j == i + 1 ==> GoesOn(store, builds[i], builds[j], project))
    && StopsAt(store, builds[|builds| - 1], project)
  }

  lemma OnlyStart<V>(store: Store<V>, start: Build, project: Project, builds: seq<Build>)
    requires IsWalk(store, start, project, builds)
    ensures builds == [start] || !StopsAt(store, start, project)
  {
    if |builds| > 1 {
      assert GoesOn(store, builds[0], builds[1], project);
    }
  }

  lemma RestWalks<V>(store: Store<V>, start: Build, project: Project, builds: seq<Build>)
    requires IsWalk(store, start, project, builds) && !StopsAt(store, start, project)
    ensures |builds| > 1 && IsWalk(store, store.inherits[start], project, builds[1..])
  {
    assert GoesOn(store, builds[0], builds[1], project);
    forall i, j | 0 <= i < j < |builds[1..]| && j == i + 1
      ensures GoesOn(store, builds[1..][i], builds[1..][j], project)
    {
      assert GoesOn(store, builds[i + 1], builds[j + 1], project);
    }
  }

  lemma {:induction false} OneWalk<V>(store: Store<V>, start: Build, project: Project, a: seq<Build>, b: seq<Build>)
    requires IsWalk(store, start, project, a) && IsWalk(store, start, project, b)
    ensures a == b
    decreases |a|
  {
    OnlyStart(store, start, project, a);
    OnlyStart(store, start, project, b);
    if StopsAt(store, start, project) {
    } else {
      RestWalks(store, start, project, a);
      RestWalks(store, start, project, b);
      OneWalk(store, store.inherits[start], project, a[1..], b[1..]);
      assert a == [a[0]] + a[1..] && b == [b[0]] + b[1..];
    }
  }

  lemma WalkExtends<V>(store: Store<V>, start: Build, project: Project, rest: seq<Build>)
    requires !StopsAt(store, start, project) && IsWalk(store, store.inherits[start], project, rest)
    ensures IsWalk(store, start, project, [start] + rest)
  {
    var builds := [start] + rest;
    forall i, j | 0 <= i < j < |builds| && j == i + 1
      ensures GoesOn(store, builds[i], builds[j], project)
    {
      if i > 0 {
        assert GoesOn(store, rest[i - 1], rest[j - 1], project);
      }
    }
  }

  lemma {:induction false} HasWalk<V>(store: Store<V>, start: Build, project: Project, n: nat)
    requires StopsUp(store, start, project, n)
    ensures exists builds :: IsWalk(store, start, project, builds)
    decreases n
  {
    if StopsAt(store, start, project) {
      assert IsWalk(store, start, project, [start]);
    } else {
      var next := store.inherits[start];
      HasWalk(store, next, project, n - 1);
      var rest :| IsWalk(store, next, project, rest);
      WalkExtends(store, start, project, rest);
    }
  }

  /** The builds that are asked: up to and including the first at which the walk stops. */
  ghost function Asked<V>(store: Store<V>, start: Build, project: Project): (builds: seq<Build>)
    requires LookupEnds(store, start, project)
    ensures IsWalk(store, start, project, builds)
  {
    var n: nat :| StopsUp(store, start, project, n);
    HasWalk(store, start, project, n);
    var builds :| IsWalk(store, start, project, builds);
    builds
  }

  lemma {:induction false} WalkIsAncestor<V>(store: Store<V>, start: Build, project: Project, builds: seq<Build>,
                                             i: nat)
    requires IsWalk(store, start, project, builds) && i < |builds|
    ensures Ancestor(store.inherits, start, i) == Some(builds[i])
    decreases i
  {
    if i == 0 {
    } else {
      WalkIsAncestor(store, start, project, builds, i - 1);
      OneUp(store.inherits, start, i - 1);
      assert GoesOn(store, builds[i - 1], builds[i], project);
    }
  }

  /** Without loops they are the beginning of the inheritance chain. */
  lemma AskedIsPrefix<V>(store: Store<V>, start: Build, project: Project)
    requires LookupEnds(store, start, project) && LoopFree(store.inherits, start)
    ensures Asked(store, start, project) <= Chain(store.inherits, start)
  {
    var asked := Asked(store, start, project);
    var chain := Chain(store.inherits, start);
    forall i | 0 <= i < |asked|
      ensures i < |chain| && asked[i] == chain[i]
    {
      WalkIsAncestor(store, start, project, asked, i);
      if |chain| <= i {
        AncestorAdds(store.inherits, start, |chain|, i - |chain|);
      }
    }
  }

  // ------------------------------------------------------------- the lookup

  /** The name the project stands for, if the last build asked makes it an alias. */
  ghost function Alias<V>(store: Store<V>, asked: seq<Build>, project: Project): Option<Project>
    requires asked != []
  {
    store.original(asked[|asked| - 1], project)
  }

  /** First the project itself, up to the build that makes it an alias; then the name it is an
      alias of, in the builds already asked and no others. */
  ghost predicate IsLookup<V>(store: Store<V>, asked: seq<Build>, project: Project, r: Option<V>)
    requires asked != []
  {
    var n := |asked|;
    if !Misses(store, asked, n, project) then IsFirstHit(store, asked, n, project, r)
    else if Alias(store, asked, project).Some? then IsFirstHit(store, asked, n, Alias(store, asked, project).value, r)
    else r.None?
  }

  // ------------------------------------------------------------- what a lookup gives, step by step

  /** The build n steps up says nothing about the project. */
  ghost predicate SilentAt<V>(store: Store<V>, start: Build, project: Project, n: nat) {
    match Ancestor(store.inherits, start, n)
    case None => false
    case Some(b) => store.value(b, project).None? && store.original(b, project).None?
  }

  /** The value a build n steps up has for a name. */
  ghost function ValueAt<V>(store: Store<V>, start: Build, name: Project, n: nat): Option<V> {
    match Ancestor(store.inherits, start, n)
    case None => None
    case Some(b) => store.value(b, name)
  }

  /** Going up n steps, nothing is said about the project. */
  ghost predicate SilentUpTo<V>(store: Store<V>, start: Build, project: Project, n: nat) {
    forall i: nat {:trigger SilentAt(store, start, project, i)} :: i < n ==> SilentAt(store, start, project, i)
  }

  lemma {:induction false} AskedUpTo<V>(store: Store<V>, start: Build, project: Project, builds: seq<Build>, n: nat)
    requires IsWalk(store, start, project, builds) && StopsUp(store, start, project, n)
    requires SilentUpTo(store, start, project, n)
    ensures |builds| == n + 1
    decreases n
  {
    OnlyStart(store, start, project, builds);
    if n == 0 {
    } else {
      assert SilentAt(store, start, project, 0);
      OneUp(store.inherits, start, 0);
      assert !StopsAt(store, start, project);
      RestWalks(store, start, project, builds);
      var next := store.inherits[start];
      forall i: nat | i < n - 1
        ensures SilentAt(store, next, project, i)
      {
        assert SilentAt(store, start, project, i + 1);
      }
      AskedUpTo(store, next, project, builds[1..], n - 1);
    }
  }

  /** The builds asked are the n + 1 first of the chain. */
  lemma AskedAre<V>(store: Store<V>, start: Build, project: Project, n: nat)
    requires StopsUp(store, start, project, n) && SilentUpTo(store, start, project, n)
    ensures LookupEnds(store, start, project)
    ensures var asked := Asked(store, start, project);
      |asked| == n + 1 && forall i :: 0 <= i <= n ==> Ancestor(store.inherits, start, i) == Some(asked[i])
  {
    var asked := Asked(store, start, project);
    AskedUpTo(store, start, project, asked, n);
    forall i | 0 <= i <= n
      ensures Ancestor(store.inherits, start, i) == Some(asked[i])
    {
      WalkIsAncestor(store, start, project, asked, i);
    }
  }

  lemma OneHit<V>(store: Store<V>, builds: seq<Build>, n: nat, name: Project, r: Option<V>, k: nat)
    requires n <= |builds| && k < n && Misses(store, builds, k, name) && store.value(builds[k], name).Some?
    ensures IsFirstHit(store, builds, n, name, r) <==> r == store.value(builds[k], name)
  {
    if r.Some? && IsFirstHit(store, builds, n, name, r) {
      var i: nat :| i < n && store.value(builds[i], name) == r && Misses(store, builds, i, name);
      assert i == k;
    }
  }

  /** A value n steps up is found if nothing is said about the project on the way there. */
  lemma InheritedIsFound<V>(store: Store<V>, start: Build, project: Project, n: nat, r: Option<V>)
    requires SilentUpTo(store, start, project, n) && ValueAt(store, start, project, n).Some?
    ensures LookupEnds(store, start, project)
    ensures IsLookup(store, Asked(store, start, project), project, r) <==> r == ValueAt(store, start, project, n)
  {
    assert StopsUp(store, start, project, n);
    AskedAre(store, start, project, n);
    var asked := Asked(store, start, project);
    forall i | 0 <= i < n
      ensures store.value(asked[i], project).None?
    {
      assert SilentAt(store, start, project, i);
    }
    OneHit(store, asked, |asked|, project, r, n);
  }

  /** If the first to speak makes the project an alias, the value is that of the other name in the
      nearest build up to there that has one, and nothing from further up. */
  lemma AliasIsFollowed<V>(store: Store<V>, start: Build, project: Project, n: nat, other: Project, r: Option<V>)
    requires SilentUpTo(store, start, project, n) && Ancestor(store.inherits, start, n).Some?
    requires var b := Ancestor(store.inherits, start, n).value;
      store.value(b, project).None? && store.original(b, project) == Some(other)
    ensures LookupEnds(store, start, project)
    ensures (forall i: nat :: i <= n ==> ValueAt(store, start, other, i).None?) ==>
      (IsLookup(store, Asked(store, start, project), project, r) <==> r.None?)
    ensures forall k: nat {:trigger ValueAt(store, start, other, k)} ::
      k <= n && ValueAt(store, start, other, k).Some? &&
      (forall i: nat :: i < k ==> ValueAt(store, start, other, i).None?) ==>
        (IsLookup(store, Asked(store, start, project), project, r) <==> r == ValueAt(store, start, other, k))
  {
    assert StopsUp(store, start, project, n);
    AskedAre(store, start, project, n);
    var asked := Asked(store, start, project);
    forall i | 0 <= i <= n
      ensures store.value(asked[i], project).None? && store.value(asked[i], other) == ValueAt(store, start, other, i)
    {
      assert i < n ==> SilentAt(store, start, project, i);
    }
    assert Misses(store, asked, |asked|, project) && Alias(store, asked, project) == Some(other);
    forall k: nat |
      k <= n && ValueAt(store, start, other, k).Some? &&
      (forall i: nat :: i < k ==> ValueAt(store, start, other, i).None?)
      ensures IsFirstHit(store, asked, |asked|, other, r) <==> r == ValueAt(store, start, other, k)
    {
      OneHit(store, asked, |asked|, other, r, k);
    }
  }

  /** Where nobody up to the end of the chain says anything, nothing is found. */
  lemma NothingIsFound<V>(store: Store<V>, start: Build, project: Project, n: nat, r: Option<V>)
    requires SilentUpTo(store, start, project, n + 1) && Ancestor(store.inherits, start, n + 1).None?
    ensures LookupEnds(store, start, project)
    ensures IsLookup(store, Asked(store, start, project), project, r) <==> r.None?
  {
    assert SilentAt(store, start, project, n);
    OneUp(store.inherits, start, n);
    assert StopsUp(store, start, project, n);
    AskedAre(store, start, project, n);
    var asked := Asked(store, start, project);
    forall i | 0 <= i <= n
      ensures store.value(asked[i], project).None? && store.original(asked[i], project).None?
    {
      assert SilentAt(store, start, project, i);
    }
  }

  /** A value in the first build is found, whatever comes after it. */
  lemma OwnValueIsFound<V>(store: Store<V>, start: Build, project: Project, r: Option<V>)
    requires store.value(start, project).Some?
    ensures LookupEnds(store, start, project)
    ensures IsLookup(store, Asked(store, start, project), project, r) <==> r == store.value(start, project)
  {
    assert StopsUp(store, start, project, 0);
    OnlyStart(store, start, project, Asked(store, start, project));
  }

  /** The first build that has a value for the name, or none. */
  method FindIn<V>(store: Store<V>, builds: seq<Build>, name: Project) returns (res: Option<V>)
    ensures IsFirstHit(store, builds, |builds|, name, res)
  {
    for i := 0 to |builds|
      invariant Misses(store, builds, i, name)
    {
      res := store.value(builds[i], name);
      if res.Some? {
        return;
      }
    }
    res := None;
  }

  lemma NextAsked<V>(store: Store<V>, start: Build, project: Project, asked: seq<Build>, i: nat)
    requires IsWalk(store, start, project, asked) && i < |asked|
    ensures StopsAt(store, asked[i], project) <==> i == |asked| - 1
    ensures i + 1 < |asked| ==> asked[i] in store.inherits && store.inherits[asked[i]] == asked[i + 1]
  {
    if i + 1 < |asked| {
      assert GoesOn(store, asked[i], asked[i + 1], project);
    }
  }

  /** The walk up the chain: it stops at a value, at an alias, or at the end. */
  method WalkUp<V>(store: Store<V>, start: Build, project: Project, ghost asked: seq<Build>)
    returns (res: Option<V>, original: Option<Project>, builds: seq<Build>)
    requires IsWalk(store, start, project, asked)
    ensures builds == asked
    ensures if res.Some? then IsFirstHit(store, asked, |asked|, project, res)
            else Misses(store, asked, |asked|, project) && original == Alias(store, asked, project)
  {
    ghost var i: nat := 0;
    var build := start;
    builds := [build];
    original := None;
    while true
      invariant i < |asked| && build == asked[i] && builds == asked[..i + 1]
      invariant Misses(store, asked, i, project)
      decreases |asked| - i
    {
      NextAsked(store, start, project, asked, i);
      res := store.value(build, project);
      if res.Some? {
        return;
      }
      original := store.original(build, project);
      if original.Some? {
        return;
      }
      if build !in store.inherits {
        return;
      }
      build := store.inherits[build];
      builds := builds + [build];
      i := i + 1;
    }
  }

  /** Ends whenever the walk up does; the second walk without an alias asks the same questions
      and finds nothing. */
  method CopyPropWithInheritance<V>(store: Store<V>, start: Build, project: Project) returns (res: Option<V>)
    requires LookupEnds(store, start, project)
    ensures IsLookup(store, Asked(store, start, project), project, res)
  {
    ghost var asked := Asked(store, start, project);
    var original, builds;
    res, original, builds := WalkUp(store, start, project, asked);
    if res.None? {
      var name := if original.Some? then original.value else project;
      res := FindIn(store, builds, name);
    }
  }
}
