/**
 What writing a property list does to the groups, and reading them back (darwinxref/DBDataStore.c).
 */
module PropertyGroups {
  import opened CStrings
  import opened PropertyList
  import opened PropertyReadback
  import opened PropertyStore
  import opened PropertyValues
  import opened TextOrder
  import opened Wrappers

  /** Names that are the same C string name the same group, and the last one wins. */
  function LastNamed(names: seq<string>, name: string): (last: Option<string>)
    ensures last.Some? ==> last.value in names && CString(last.value) == name
    ensures last.None? ==> forall k :: k in names ==> CString(k) != name
  {
    if names == [] then None
    else if CString(names[|names| - 1]) == name then Some(names[|names| - 1])
    else
      assert names == names[..|names| - 1] + [names[|names| - 1]];
      LastNamed(names[..|names| - 1], name)
  }

  lemma {:induction false} PutGroupsAt(groups: Groups, build: Build, dict: Plist, names: seq<string>, slot: GroupSlot)
    requires dict.Dict? && AreGroups(dict) && forall k :: k in names ==> k in dict.entries
    ensures At(PutGroups(groups, build, dict, names), slot) ==
      if slot.build == build && LastNamed(names, slot.name).Some?
      then Members(dict.entries[LastNamed(names, slot.name).value].items)
      else At(groups, slot)
  {
    if names == [] {
    } else {
      var fewer, last := names[..|names| - 1], names[|names| - 1];
      assert names == fewer + [last];
      PutGroupsAt(groups, build, dict, fewer, slot);
    }
  }

  /** The members a dictionary gives a group. */
  ghost function MembersIn(dict: Plist, name: string): seq<string>
    requires dict.Dict? && AreGroups(dict)
  {
    var last := LastNamed(Sorted(dict.entries.Keys), name);
    if last.Some? then Members(dict.entries[last.value].items) else []
  }

  lemma RegroupedAt(groups: Groups, build: Build, dict: Plist, slot: GroupSlot)
    requires dict.Dict? && AreGroups(dict)
    ensures At(Regrouped(groups, build, dict), slot) ==
      if slot.build != build then At(groups, slot) else MembersIn(dict, slot.name)
  {
    PutGroupsAt(WithoutBuild(groups, build), build, dict, Sorted(dict.entries.Keys), slot);
  }

  /** The groups a plist gives its build, with their members. */
  ghost function GroupOf(plist: Plist, name: string): seq<string>
    requires plist.Dict? && "groups" in plist.entries
    requires plist.entries["groups"].Dict? && AreGroups(plist.entries["groups"])
  {
    MembersIn(plist.entries["groups"], name)
  }

  /** If no two of its names are the same C string, a dictionary gives each name its own members. */
  lemma OwnMembers(dict: Plist, k: string)
    requires dict.Dict? && AreGroups(dict) && k in dict.entries
    requires forall j :: j in dict.entries && CString(j) == CString(k) ==> j == k
    ensures MembersIn(dict, CString(k)) == Members(dict.entries[k].items)
  {
    assert k in Sorted(dict.entries.Keys);
  }

  /** A plist with groups replaces all groups of its build, whether its properties could be
      stored or not. */
  lemma GroupsAreReplaced(types: Types, rows: Rows, groups: Groups, build: Build, project: Option<Project>,
                          plist: Plist, name: string)
    requires Sane(plist) && WellFormed(plist) && "groups" in plist.entries
    ensures At(Grouped(types, rows, groups, build, project, plist), GroupSlot(BuildOf(plist.entries, build), name)) ==
      GroupOf(plist, name)
  {
    var b, p := BuildOf(plist.entries, build), ProjectOf(plist.entries, project);
    var inner := GroupedInside(types, rows, groups, b, p, plist);
    RegroupedAt(inner, b, plist.entries["groups"], GroupSlot(b, name));
  }

  // ------------------------------------------------------------- what is not touched

  /** The builds whose groups a plist and the projects inside it may write. */
  ghost function GroupBuilds(build: Build, plist: Plist): set<Build>
    requires Sane(plist)
    decreases plist, 1
  {
    if !WellFormed(plist) then {}
    else
      var b := BuildOf(plist.entries, build);
      (if "groups" in plist.entries then {b} else {}) +
      (if "projects" in plist.entries then GroupBuildsInside(b, plist.entries["projects"]) else {})
  }

  ghost function GroupBuildsInside(build: Build, projects: Plist): set<Build>
    requires AllSane(projects) && projects.Dict?
    decreases projects, 0
  {
    set k, b | k in projects.entries && b in GroupBuilds(build, projects.entries[k]) :: b
  }

  /** Success or not, the groups of all other builds stay as they are. */
  lemma {:induction false} OtherGroupsAreKept(types: Types, rows: Rows, groups: Groups, build: Build,
                                              project: Option<Project>, plist: Plist, slot: GroupSlot)
    requires Sane(plist) && slot.build !in GroupBuilds(build, plist)
    ensures At(Grouped(types, rows, groups, build, project, plist), slot) == At(groups, slot)
    decreases plist, 2
  {
    if WellFormed(plist) {
      var b, p := BuildOf(plist.entries, build), ProjectOf(plist.entries, project);
      OtherGroupsAreKeptAt(types, rows, groups, b, p, plist, slot);
      if "groups" in plist.entries {
        RegroupedAt(GroupedInside(types, rows, groups, b, p, plist), b, plist.entries["groups"], slot);
      }
    }
  }

  lemma {:induction false} OtherGroupsAreKeptAt(types: Types, rows: Rows, groups: Groups, build: Build,
                                                project: Option<Project>, plist: Plist, slot: GroupSlot)
    requires Sane(plist) && WellFormed(plist)
    requires "projects" in plist.entries ==> slot.build !in GroupBuildsInside(build, plist.entries["projects"])
    ensures At(GroupedInside(types, rows, groups, build, project, plist), slot) == At(groups, slot)
    decreases plist, 1
  {
    var own := SetOwn(types, rows, build, project, plist.entries);
    if own.ok && "projects" in plist.entries {
      var projects := plist.entries["projects"];
      var names := Sorted(projects.entries.Keys);
      OtherGroupsAreKeptInside(types, own.rows, groups, build, projects, names, |names|, slot);
    }
  }

  lemma {:induction false} OtherGroupsAreKeptInside(types: Types, rows: Rows, groups: Groups, build: Build,
                                                    projects: Plist, names: seq<Project>, n: nat, slot: GroupSlot)
    requires AllSane(projects) && AreProjects(names, projects) && n <= |names|
    requires slot.build !in GroupBuildsInside(build, projects)
    ensures At(GroupProjects(types, rows, groups, build, projects, names, n), slot) == At(groups, slot)
    decreases projects, 0, n
  {
    if n == 0 {
    } else {
      OtherGroupsAreKeptInside(types, rows, groups, build, projects, names, n - 1, slot);
      var so := SetProjects(types, rows, build, projects, names, n - 1);
      var before := GroupProjects(types, rows, groups, build, projects, names, n - 1);
      if so.ok {
        OtherGroupsAreKept(types, so.rows, before, build, Some(names[n - 1]), projects.entries[names[n - 1]], slot);
      }
    }
  }

  lemma PlainGroupBuilds(build: Build, projects: Plist, b: Build)
    requires AllSane(projects) && AllPlain(projects) && NUL !in build && b in GroupBuildsInside(build, projects)
    ensures b == build
  {
    var k :| k in projects.entries && b in GroupBuilds(build, projects.entries[k]);
    assert Plain(projects.entries[k]);
  }

  /** The groups go to the build that the plist itself names, or else to the caller's, and no other
      build's groups are touched. */
  lemma GroupsAreThere(types: Types, rows: Rows, groups: Groups, build: Build, project: Option<Project>, plist: Plist,
                       b: string, p: Option<string>, slot: GroupSlot)
    requires Sane(plist) && BelongsTo(plist, build, project, b, p)
    ensures slot.build != CString(b) ==>
      At(Grouped(types, rows, groups, build, project, plist), slot) == At(groups, slot)
    ensures slot.build == CString(b) && "groups" in plist.entries ==>
      At(Grouped(types, rows, groups, build, project, plist), slot) == GroupOf(plist, slot.name)
  {
    PlaceIsTold(plist, build, project, b, p);
    if slot.build != CString(b) {
      if "projects" in plist.entries && slot.build in GroupBuildsInside(CString(b), plist.entries["projects"]) {
        PlainGroupBuilds(CString(b), plist.entries["projects"], slot.build);
      }
      OtherGroupsAreKept(types, rows, groups, build, project, plist, slot);
    } else if "groups" in plist.entries {
      GroupsAreReplaced(types, rows, groups, build, project, plist, slot.name);
    }
  }

  // ------------------------------------------------------------- reading back

  /** SELECT DISTINCT member ... ORDER BY member; the names are C strings. */
  ghost function ReadMembers(groups: Groups, build: Build, name: string): seq<string> {
    Sorted(ToSet(At(groups, GroupSlot(build, name))))
  }

  lemma SortedIsSame(list: seq<string>)
    ensures Sorted(ToSet(list)) == list <==> SortedBy(list, x => x) && Distinct(list)
  {
    if SortedBy(list, x => x) && Distinct(list) {
      SortedUnique(list, ToSet(list));
    }
  }

  lemma MembersReadBack(items: seq<Plist>)
    requires AllStrings(items)
    ensures Sorted(ToSet(Members(items))) == Texts(items) <==>
      SortedBy(Texts(items), x => x) && Distinct(Texts(items)) &&
      forall i :: 0 <= i < |items| ==> NUL !in items[i].text
  {
    var members, texts := Members(items), Texts(items);
    if Sorted(ToSet(members)) == texts {
      forall i | 0 <= i < |items|
        ensures NUL !in items[i].text
      {
        assert texts[i] in ToSet(members);
        var j :| 0 <= j < |members| && members[j] == texts[i];
      }
    }
    if forall i :: 0 <= i < |items| ==> NUL !in items[i].text {
      assert members == texts;
      SortedIsSame(texts);
    }
  }

  /** A group comes back as it was written exactly if its members are in ascending order, each is
      named once and none holds a NUL. */
  lemma GroupReadsBack(types: Types, rows: Rows, groups: Groups, build: Build, project: Option<Project>, plist: Plist,
                       k: string)
    requires Sane(plist) && WellFormed(plist) && "groups" in plist.entries && k in plist.entries["groups"].entries
    requires forall j :: j in plist.entries["groups"].entries && CString(j) == CString(k) ==> j == k
    ensures var after := Grouped(types, rows, groups, build, project, plist);
      var items := plist.entries["groups"].entries[k].items;
      (ReadMembers(after, BuildOf(plist.entries, build), CString(k)) == Texts(items)) <==>
        (SortedBy(Texts(items), x => x) && Distinct(Texts(items)) &&
         forall i :: 0 <= i < |items| ==> NUL !in items[i].text)
  {
    GroupsAreReplaced(types, rows, groups, build, project, plist, CString(k));
    OwnMembers(plist.entries["groups"], k);
    MembersReadBack(plist.entries["groups"].entries[k].items);
  }
}
