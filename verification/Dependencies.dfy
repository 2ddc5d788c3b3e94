/**
 Dependencies of a project (darwinxref/plugins/dependencies.c): a list per dependency type, edited
 along the inheritance chain, and a depth-first walk that prints what a project depends on.
 */
module Dependencies {
  import opened Inheritance
  import opened StringArrays
  import opened TextOrder
  import opened Wrappers

  type Project = string

  type Type = string

  /** One build's dependencies dictionary: keys are types, or types behind '+' or '-'. */
  type Deps = map<Type, seq<string>>

  type Lists = map<Type, seq<string>>

  /** The property that says what a project depends on; its values are dictionaries of arrays. */
  const PROPERTY := "dependencies"

  datatype Database = Database(inherits: Inherits, dependencies: map<(Build, Project), Deps>) {

    /** The code looks at the first character of every key. */
    ghost predicate Valid() {
      forall at, key :: at in dependencies && key in dependencies[at] ==> key != ""
    }

    /** Lists come from a DISTINCT query. */
    ghost predicate NoRepeats() {
      forall at, key :: at in dependencies && key in dependencies[at] ==> Distinct(dependencies[at][key])
    }

    function At(build: Build, project: Project): Deps {
      if (build, project) in dependencies then dependencies[(build, project)] else map[]
    }
  }

  // ------------------------------------------------------------- edits along the chain

  predicate Plain(t: Type) {
    t != "" && t[0] != '+' && t[0] != '-'
  }

  function Lookup(lists: Lists, t: Type): Option<seq<string>> {
    if t in lists then Some(lists[t]) else None
  }

  /** What one key of one build's dictionary does to the list it is about. */
  function Edit(list: Option<seq<string>>, key: Type, items: seq<string>): Option<seq<string>>
    requires key != ""
  {
    if key[0] == '+' then
      if list.Some? then Some(list.value + NotIn(items, list.value)) else None
    else if key[0] == '-' then
      if list.Some? then Some(RemoveEach(list.value, items)) else None
    else Some(items)
  }

  function Target(key: Type): Type
    requires key != ""
  {
    if key[0] == '+' || key[0] == '-' then key[1..] else key
  }

  /** The keys about a type in the order the code meets them, which is descending text order. */
  function KeysAbout(t: Type): (keys: seq<Type>)
    requires Plain(t)
    ensures |keys| == 3 && forall key :: key in keys <==> key != "" && Target(key) == t
  {
    assert forall key: Type :: key != "" ==> key == [key[0]] + key[1..];
    if t[0] > '-' then [t, "-" + t, "+" + t]
    else if t[0] > '+' then ["-" + t, t, "+" + t]
    else ["-" + t, "+" + t, t]
  }

  function EditIf(list: Option<seq<string>>, key: Type, deps: Deps, done: set<Type>): Option<seq<string>>
    requires key != ""
  {
    if key in deps && key in done then Edit(list, key, deps[key]) else list
  }

  /** The list of a type after the keys `done` of one build's dictionary. */
  function Edited(list: Option<seq<string>>, t: Type, deps: Deps, done: set<Type>): Option<seq<string>>
    requires Plain(t)
  {
    var keys := KeysAbout(t);
    EditIf(EditIf(EditIf(list, keys[0], deps, done), keys[1], deps, done), keys[2], deps, done)
  }

  /** The list of a type after some builds, oldest first. */
  function Resolved(db: Database, builds: seq<Build>, project: Project, t: Type): Option<seq<string>>
    requires Plain(t)
  {
    if builds == [] then None
    else
      var deps := db.At(builds[|builds| - 1], project);
      Edited(Resolved(db, builds[..|builds| - 1], project, t), t, deps, deps.Keys)
  }

  /** Handling the keys in descending order gives each type its edits in its own order, and no
      key touches another type. */
  lemma EditKeepsOrder(list: Option<seq<string>>, t: Type, deps: Deps, key: Type, done: set<Type>)
    requires Plain(t) && key in deps && key != "" && key !in done
    requires forall other :: other in deps && other != "" && other[0] != key[0] ==>
      (other in done <==> other[0] > key[0])
    ensures Edited(list, t, deps, done + {key}) ==
      if Target(key) == t then Edit(Edited(list, t, deps, done), key, deps[key])
      else Edited(list, t, deps, done)
  {
    assert key in KeysAbout(t) <==> Target(key) == t;
    forall other | other != "" && other != key
      ensures EditIf(list, other, deps, done + {key}) == EditIf(list, other, deps, done)
    {
    }
  }

  /** In descending order, the keys already met are those with a greater first character. */
  lemma MetKeys(keys: seq<Type>, k: nat, other: Type)
    requires k < |keys| && SortedBy(keys, x => x) && Distinct(keys)
    requires keys[k] != "" && other in keys && other != "" && other[0] != keys[k][0]
    ensures other in keys[k + 1..] <==> other[0] > keys[k][0]
  {
    var j :| 0 <= j < |keys| && keys[j] == other;
    if j > k {
      assert Leq(keys[k], keys[j]);
      assert keys[k + 1..][j - k - 1] == other;
    } else {
      assert Leq(keys[j], keys[k]);
    }
  }

  // ------------------------------------------------------------- the edits in place

  ghost predicate Separate(arrays: map<Type, StringArray>) {
    forall s, t :: s in arrays && t in arrays && s != t ==> arrays[s] != arrays[t]
  }

  ghost function Objects(arrays: map<Type, StringArray>): set<StringArray> {
    set t | t in arrays :: arrays[t]
  }

  ghost function Contents(arrays: map<Type, StringArray>): Lists
    reads Objects(arrays)
  {
    map t | t in arrays :: arrays[t].items
  }

  /** One key was handled: its list is edited, every other list is as it was. */
  ghost predicate KeyHandled(before: Lists, after: Lists, key: Type, items: seq<string>)
    requires key != ""
  {
    && (forall t :: t in after ==> Plain(t))
    && (forall t :: Plain(t) ==>
          Lookup(after, t) == if Target(key) == t then Edit(Lookup(before, t), key, items) else Lookup(before, t))
  }

  /** The keys `done` were handled. */
  ghost predicate Handled(before: Lists, after: Lists, deps: Deps, done: set<Type>) {
    && (forall t :: t in after ==> Plain(t))
    && (forall t :: Plain(t) ==> Lookup(after, t) == Edited(Lookup(before, t), t, deps, done))
  }

  /** One build's dictionary, as fresh arrays. */
  method CopyOnePropDictionary(deps: Deps) returns (arrays: map<Type, StringArray>)
    ensures Separate(arrays) && arrays.Keys == deps.Keys && fresh(Objects(arrays))
    ensures forall key :: key in deps ==> arrays[key].items == deps[key]
  {
    arrays := map[];
    var rest := deps.Keys;
    while rest != {}
      invariant Separate(arrays) && arrays.Keys == deps.Keys - rest && rest <= deps.Keys
      invariant forall key :: key in arrays ==> fresh(arrays[key]) && arrays[key].items == deps[key]
      decreases rest
    {
      var key :| key in rest;
      var list := new StringArray(deps[key]);
      arrays := arrays[key := list];
      rest := rest - {key};
    }
  }

  method ApplyKey(result: map<Type, StringArray>, key: Type, newdeps: StringArray)
    returns (after: map<Type, StringArray>)
    requires key != "" && Separate(result) && newdeps !in Objects(result)
    requires forall t :: t in result ==> Plain(t)
    modifies Objects(result)
    ensures Separate(after) && Objects(after) <= Objects(result) + {newdeps}
    ensures KeyHandled(old(Contents(result)), Contents(after), key, newdeps.items)
  {
    after := result;
    var first := key[0];
    if first == '+' {
      var base := key[1..];
      if base in result {
        result[base].AppendDistinct(newdeps);
      }
    } else if first == '-' {
      var base := key[1..];
      if base in result {
        result[base].Subtract(newdeps);
      }
    } else {
      after := result[key := newdeps];
    }
  }

  ghost predicate DescendingFrom(keys: seq<Type>, deps: Deps) {
    && SortedBy(keys, x => x) && Distinct(keys)
    && (forall key :: key in keys <==> key in deps)
    && (forall key :: key in deps ==> key != "")
  }

  /** The keys from k on were handled; the arrays of the others are untouched and not part of
      the result. */
  ghost predicate Progress(result: map<Type, StringArray>, deps: map<Type, StringArray>,
                           before: Lists, dictionary: Deps, keys: seq<Type>, k: nat)
    requires k <= |keys| && forall key :: key in keys ==> key in deps && key in dictionary
    reads Objects(result), Objects(deps)
  {
    && Separate(result)
    && Handled(before, Contents(result), dictionary, ToSet(keys[k..]))
    && (forall i {:trigger keys[i]} :: 0 <= i < k ==>
          deps[keys[i]] !in Objects(result) && deps[keys[i]].items == dictionary[keys[i]])
  }

  lemma NextKey(before: Lists, mid: Lists, after: Lists, deps: Deps, keys: seq<Type>, k: nat)
    requires k < |keys| && DescendingFrom(keys, deps) && keys[k] in deps
    requires Handled(before, mid, deps, ToSet(keys[k + 1..]))
    requires KeyHandled(mid, after, keys[k], deps[keys[k]])
    ensures Handled(before, after, deps, ToSet(keys[k..]))
  {
    var done := ToSet(keys[k + 1..]);
    forall other | other in deps && other[0] != keys[k][0]
      ensures other in done <==> other[0] > keys[k][0]
    {
      MetKeys(keys, k, other);
    }
    assert keys[k..] == [keys[k]] + keys[k + 1..];
    assert ToSet(keys[k..]) == done + {keys[k]};
    forall t | Plain(t)
      ensures Lookup(after, t) == Edited(Lookup(before, t), t, deps, ToSet(keys[k..]))
    {
      EditKeepsOrder(Lookup(before, t), t, deps, keys[k], done);
    }
  }

  method HandleKey(result: map<Type, StringArray>, newdeps: StringArray,
                   ghost before: Lists, dictionary: Deps, keys: seq<Type>, k: nat)
    returns (after: map<Type, StringArray>)
    requires 0 < k <= |keys| && DescendingFrom(keys, dictionary) && keys[k - 1] in dictionary
    requires Separate(result) && newdeps !in Objects(result) && newdeps.items == dictionary[keys[k - 1]]
    requires Handled(before, Contents(result), dictionary, ToSet(keys[k..]))
    modifies Objects(result)
    ensures Separate(after) && Objects(after) <= Objects(result) + {newdeps}
    ensures Handled(before, Contents(after), dictionary, ToSet(keys[k - 1..]))
  {
    ghost var mid := Contents(result);
    assert forall t :: t in result ==> t in mid;
    after := ApplyKey(result, keys[k - 1], newdeps);
    NextKey(before, mid, Contents(after), dictionary, keys, k - 1);
  }

  method ApplyNext(result: map<Type, StringArray>, deps: map<Type, StringArray>,
                   ghost before: Lists, dictionary: Deps, keys: seq<Type>, k: nat)
    returns (after: map<Type, StringArray>)
    requires DescendingFrom(keys, dictionary) && deps.Keys == dictionary.Keys && Separate(deps)
    requires 0 < k <= |keys| && Progress(result, deps, before, dictionary, keys, k)
    modifies Objects(result)
    ensures Progress(after, deps, before, dictionary, keys, k - 1)
    ensures Objects(after) <= Objects(result) + Objects(deps)
  {
    var key := keys[k - 1];
    assert key in keys;
    after := HandleKey(result, deps[key], before, dictionary, keys, k);
    assert deps[key] in Objects(deps);
  }

  method ApplyKeys(result: map<Type, StringArray>, deps: map<Type, StringArray>, dictionary: Deps, keys: seq<Type>)
    returns (after: map<Type, StringArray>)
    requires DescendingFrom(keys, dictionary) && deps.Keys == dictionary.Keys && Separate(deps)
    requires Progress(result, deps, Contents(result), dictionary, keys, |keys|)
    modifies Objects(result), Objects(deps)
    ensures Separate(after) && Objects(after) <= Objects(result) + Objects(deps)
    ensures Handled(old(Contents(result)), Contents(after), dictionary, dictionary.Keys)
  {
    var k := |keys|;
    after := result;
    while k > 0
      invariant 0 <= k <= |keys| && Objects(after) <= Objects(result) + Objects(deps)
      invariant Progress(after, deps, old(Contents(result)), dictionary, keys, k)
    {
      after := ApplyNext(after, deps, old(Contents(result)), dictionary, keys, k);
      k := k - 1;
    }
    assert ToSet(keys[0..]) == dictionary.Keys;
  }

  lemma NothingHandled(lists: Lists, deps: Deps, keys: seq<Type>)
    requires forall t :: t in lists ==> Plain(t)
    ensures Handled(lists, lists, deps, ToSet(keys[|keys|..]))
  {
    assert keys[|keys|..] == [];
  }

  method ApplyBuild(result: map<Type, StringArray>, dictionary: Deps) returns (after: map<Type, StringArray>)
    requires Separate(result) && (forall t :: t in result ==> Plain(t))
    requires forall key :: key in dictionary ==> key != ""
    modifies Objects(result)
    ensures Separate(after) && fresh(Objects(after) - Objects(result))
    ensures Handled(old(Contents(result)), Contents(after), dictionary, dictionary.Keys)
  {
    var deps := CopyOnePropDictionary(dictionary);
    var keys := Sort(deps.Keys, x => x);
    assert Contents(result) == old(Contents(result));
    NothingHandled(Contents(result), dictionary, keys);
    assert Objects(result) !! Objects(deps);
    forall i | 0 <= i < |keys|
      ensures deps[keys[i]] !in Objects(result)
    {
      assert keys[i] in keys;
      assert deps[keys[i]] in Objects(deps);
    }
    after := ApplyKeys(result, deps, dictionary, keys);
  }

  /** These are the lists that some builds, oldest first, leave. */
  ghost predicate AreResolved(lists: Lists, db: Database, builds: seq<Build>, project: Project) {
    && (forall t :: t in lists ==> Plain(t))
    && (forall t :: Plain(t) ==> Lookup(lists, t) == Resolved(db, builds, project, t))
  }

  lemma NextBuild(before: Lists, after: Lists, db: Database, builds: seq<Build>, i: nat, project: Project)
    requires i < |builds| && AreResolved(before, db, builds[..i], project)
    requires var deps := db.At(builds[i], project); Handled(before, after, deps, deps.Keys)
    ensures AreResolved(after, db, builds[..i + 1], project)
  {
    assert builds[..i + 1][..i] == builds[..i];
  }

  method ApplyNextBuild(result: map<Type, StringArray>, db: Database, builds: seq<Build>, i: nat, project: Project)
    returns (after: map<Type, StringArray>)
    requires db.Valid() && i < |builds|
    requires Separate(result) && AreResolved(Contents(result), db, builds[..i], project)
    modifies Objects(result)
    ensures Separate(after) && fresh(Objects(after) - Objects(result))
    ensures AreResolved(Contents(after), db, builds[..i + 1], project)
  {
    ghost var before := Contents(result);
    assert forall t :: t in result ==> t in before;
    after := ApplyBuild(result, db.At(builds[i], project));
    NextBuild(before, Contents(after), db, builds, i, project);
  }

  method CopyDependenciesDictionary(db: Database, param: Build, project: Project)
    returns (result: map<Type, StringArray>)
    requires db.Valid() && LoopFree(db.inherits, param)
    ensures fresh(Objects(result))
    ensures AreResolved(Contents(result), db, Reversed(Chain(db.inherits, param)), project)
  {
    var builds := CopyBuildInheritance(db.inherits, param);
    result := map[];
    for i := 0 to |builds|
      invariant Separate(result) && fresh(Objects(result))
      invariant AreResolved(Contents(result), db, builds[..i], project)
    {
      result := ApplyNextBuild(result, db, builds, i, project);
    }
    assert builds[..|builds|] == builds;
  }

  /** The lists the dictionary holds in the end. */
  method DependenciesOf(db: Database, build: Build, project: Project) returns (lists: Lists)
    requires db.Valid() && LoopFree(db.inherits, build)
    ensures AreResolved(lists, db, Reversed(Chain(db.inherits, build)), project)
  {
    var result := CopyDependenciesDictionary(db, build, project);
    lists := map t | t in result :: result[t].items;
    assert lists == Contents(result);
  }

  // ------------------------------------------------------------- the meaning of the edits

  function SetAt(deps: Deps, key: Type): set<string> {
    if key in deps then ToSet(deps[key]) else {}
  }

  /** Replace by the base list, then subtract, then add; edits before any base list are ignored. */
  function Folded(db: Database, builds: seq<Build>, project: Project, t: Type): Option<set<string>> {
    if builds == [] then None
    else
      var deps := db.At(builds[|builds| - 1], project);
      var base := if t in deps then Some(ToSet(deps[t])) else Folded(db, builds[..|builds| - 1], project, t);
      if base.None? then None else Some(base.value - SetAt(deps, "-" + t) + SetAt(deps, "+" + t))
  }

  /** The list is there when the set is, holds the same items, and has no repeats. */
  ghost predicate SameItems(list: Option<seq<string>>, items: Option<set<string>>) {
    && list.Some? == items.Some?
    && (list.Some? ==> Distinct(list.value) && ToSet(list.value) == items.value)
  }

  lemma EditMeans(list: Option<seq<string>>, items: Option<set<string>>, t: Type, deps: Deps)
    requires Plain(t) && t[0] > '-' && SameItems(list, items)
    requires forall key :: key in deps ==> Distinct(deps[key])
    ensures var base := if t in deps then Some(ToSet(deps[t])) else items;
      SameItems(Edited(list, t, deps, deps.Keys),
        if base.None? then None else Some(base.value - SetAt(deps, "-" + t) + SetAt(deps, "+" + t)))
  {
    var l0 := EditIf(list, t, deps, deps.Keys);
    var l1 := EditIf(l0, "-" + t, deps, deps.Keys);
    var l2 := EditIf(l1, "+" + t, deps, deps.Keys);
    assert Edited(list, t, deps, deps.Keys) == l2;
    if l0.Some? && "-" + t in deps {
      RemoveEachMeans(l0.value, deps["-" + t]);
    }
    if l1.Some? && "+" + t in deps {
      AppendMeans(l1.value, deps["+" + t]);
    }
  }

  /** For every type that sorts after '-', editing lists along the chain folds sets. */
  lemma {:induction false} ResolvedMeansFolded(db: Database, builds: seq<Build>, project: Project, t: Type)
    requires db.NoRepeats() && Plain(t) && t[0] > '-'
    ensures SameItems(Resolved(db, builds, project, t), Folded(db, builds, project, t))
  {
    if builds == [] {
    } else {
      var earlier, build := builds[..|builds| - 1], builds[|builds| - 1];
      ResolvedMeansFolded(db, earlier, project, t);
      EditMeans(Resolved(db, earlier, project, t), Folded(db, earlier, project, t), t, db.At(build, project));
    }
  }

  function ListAt(deps: Deps, key: Type): seq<string> {
    if key in deps then deps[key] else []
  }

  /** The same as lists: what is subtracted is left out, what is added comes behind, all in order. */
  function FoldedList(db: Database, builds: seq<Build>, project: Project, t: Type): Option<seq<string>> {
    if builds == [] then None
    else
      var deps := db.At(builds[|builds| - 1], project);
      var base := if t in deps then Some(deps[t]) else FoldedList(db, builds[..|builds| - 1], project, t);
      if base.None? then None
      else
        var kept := NotIn(base.value, ListAt(deps, "-" + t));
        Some(kept + NotIn(ListAt(deps, "+" + t), kept))
  }

  lemma EditsInOrder(list: Option<seq<string>>, t: Type, deps: Deps)
    requires Plain(t) && t[0] > '-' && (list.Some? ==> Distinct(list.value))
    requires forall key :: key in deps ==> Distinct(deps[key])
    ensures var base := if t in deps then Some(deps[t]) else list;
      Edited(list, t, deps, deps.Keys) ==
        if base.None? then None
        else
          var kept := NotIn(base.value, ListAt(deps, "-" + t));
          Some(kept + NotIn(ListAt(deps, "+" + t), kept))
  {
    var base := if t in deps then Some(deps[t]) else list;
    var l1 := EditIf(base, "-" + t, deps, deps.Keys);
    assert EditIf(list, t, deps, deps.Keys) == base;
    assert Edited(list, t, deps, deps.Keys) == EditIf(l1, "+" + t, deps, deps.Keys);
    if base.Some? {
      RemoveEachLeavesOut(base.value, ListAt(deps, "-" + t));
      assert RemoveEach(base.value, []) == base.value;
      assert NotIn([], l1.value) == [] && l1.value + [] == l1.value;
    }
  }

  /** For every type that sorts after '-' the lists are these, item by item. */
  lemma {:induction false} ResolvedInOrder(db: Database, builds: seq<Build>, project: Project, t: Type)
    requires db.NoRepeats() && Plain(t) && t[0] > '-'
    ensures Resolved(db, builds, project, t) == FoldedList(db, builds, project, t)
  {
    if builds == [] {
    } else {
      var earlier, build := builds[..|builds| - 1], builds[|builds| - 1];
      ResolvedInOrder(db, earlier, project, t);
      ResolvedMeansFolded(db, earlier, project, t);
      EditsInOrder(Resolved(db, earlier, project, t), t, db.At(build, project));
    }
  }

  /** A build that both lists and subtracts a type whose name sorts before '-'. */
  lemma MisorderedBuild(t: Type) returns (db: Database, builds: seq<Build>)
    requires Plain(t) && t[0] < '-'
    ensures db.Valid() && db.NoRepeats()
    ensures Resolved(db, builds, "p", t) == Some(["x"]) && Folded(db, builds, "p", t) == Some({})
  {
    var deps: Deps := map[t := ["x"], "-" + t := ["x"]];
    db := Database(map[], map[("b", "p") := deps]);
    builds := ["b"];
    assert builds[..0] == [];
    assert ("-" + t)[0] == '-' && ("+" + t)[0] == '+';
    assert "-" + t != "+" + t;
    assert |"+" + t| > |t| && |"-" + t| > |t|;
    assert "+" + t !in deps && deps[t] == ["x"];
    assert EditIf(None, "-" + t, deps, deps.Keys) == None;
    assert EditIf(None, t, deps, deps.Keys) == Some(["x"]);
    assert Resolved(db, builds, "p", t) == Edited(None, t, deps, deps.Keys);
    assert ToSet(["x"]) - SetAt(deps, "-" + t) + SetAt(deps, "+" + t) == {};
  }

  /** The order of edits the code relies on, base list first, comes from the text order of the
      keys, and so it holds exactly for types that sort after '-'. */
  lemma FoldsExactlyAfterDash(t: Type)
    requires Plain(t)
    ensures (forall db: Database, builds, project :: db.NoRepeats() ==>
               SameItems(Resolved(db, builds, project, t), Folded(db, builds, project, t)))
            <==> t[0] > '-'
  {
    if t[0] > '-' {
      forall db: Database, builds, project | db.NoRepeats()
        ensures SameItems(Resolved(db, builds, project, t), Folded(db, builds, project, t))
      {
        ResolvedMeansFolded(db, builds, project, t);
      }
    } else {
      var db, builds := MisorderedBuild(t);
      assert "x" in ToSet(["x"]);
      assert !SameItems(Resolved(db, builds, "p", t), Folded(db, builds, "p", t));
    }
  }
}
