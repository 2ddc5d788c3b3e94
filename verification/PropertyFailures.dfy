/**
 When writing a property list succeeds, and what a write that fails leaves behind: its transaction is
 committed all the same (darwinxref/DBDataStore.c).
 */
module PropertyFailures {
  import opened CStrings
  import opened PropertyList
  import opened PropertyReadback
  import opened PropertyStore
  import opened TextOrder
  import opened Wrappers

  // ------------------------------------------------------------- when writing succeeds

  predicate CanSet(types: Types, entries: map<string, Plist>, q: Property) {
    q in entries && !Pseudo(q) ==> q in types && Matches(types[q], entries[q])
  }

  /** Every property is declared and of its type, also in the projects inside. */
  ghost predicate Accepted(types: Types, plist: Plist)
    decreases plist, 1
  {
    && WellFormed(plist)
    && (forall q :: CanSet(types, plist.entries, q))
    && ("projects" in plist.entries ==> AllAccepted(types, plist.entries["projects"]))
  }

  ghost predicate AllAccepted(types: Types, projects: Plist)
    decreases projects, 0
  {
    projects.Dict? ==> forall k :: k in projects.entries ==> Accepted(types, projects.entries[k])
  }

  lemma {:induction false} PropsSucceed(types: Types, rows: Rows, build: Build, project: Option<Project>,
                                        entries: map<string, Plist>, keys: seq<Property>, n: nat)
    requires n <= |keys| && forall i :: 0 <= i < |keys| ==> keys[i] in entries
    requires forall q :: q in entries && !Pseudo(q) ==> Storable(entries[q])
    ensures SetProps(types, rows, build, project, entries, keys, n).ok <==>
      forall i :: 0 <= i < n ==> CanSet(types, entries, keys[i])
  {
    if n == 0 {
    } else {
      PropsSucceed(types, rows, build, project, entries, keys, n - 1);
    }
  }

  lemma OwnSucceeds(types: Types, rows: Rows, build: Build, project: Option<Project>, entries: map<string, Plist>)
    requires forall q :: q in entries && !Pseudo(q) ==> Storable(entries[q])
    ensures SetOwn(types, rows, build, project, entries).ok <==> forall q :: CanSet(types, entries, q)
  {
    var keys := Sorted(entries.Keys);
    PropsSucceed(types, Dropped(rows, build, project, entries.Keys), build, project, entries, keys, |keys|);
    if forall i :: 0 <= i < |keys| ==> CanSet(types, entries, keys[i]) {
      forall q
        ensures CanSet(types, entries, q)
      {
        assert q in entries ==> q in keys;
      }
    }
  }

  /** Writing a plist succeeds exactly if all of it can be stored; what the tables hold already, and which
      build and project it is written to, plays no part. */
  lemma {:induction false} SucceedsExactly(types: Types, rows: Rows, build: Build, project: Option<Project>,
                                           plist: Plist)
    requires Sane(plist)
    ensures Stored(types, rows, build, project, plist).ok <==> Accepted(types, plist)
    decreases plist, 2
  {
    if WellFormed(plist) {
      var b, p := BuildOf(plist.entries, build), ProjectOf(plist.entries, project);
      var own := SetOwn(types, rows, b, p, plist.entries);
      OwnSucceeds(types, rows, b, p, plist.entries);
      if own.ok && "projects" in plist.entries {
        AllSucceedExactly(types, own.rows, b, plist.entries["projects"]);
      }
    }
  }

  lemma {:induction false} AllSucceedExactly(types: Types, rows: Rows, build: Build, projects: Plist)
    requires AllSane(projects) && projects.Dict?
    ensures SetAllProjects(types, rows, build, projects).ok <==> AllAccepted(types, projects)
    decreases projects, 1
  {
    var names := Sorted(projects.entries.Keys);
    FirstSucceedExactly(types, rows, build, projects, names, |names|);
    FirstAcceptedAre(types, projects, names, |names|);
    if forall i :: 0 <= i < |names| ==> Accepted(types, projects.entries[names[i]]) {
      forall k | k in projects.entries
        ensures Accepted(types, projects.entries[k])
      {
        assert k in names;
      }
    }
  }

  /** The first n projects are accepted. */
  ghost predicate FirstAccepted(types: Types, projects: Plist, names: seq<Project>, n: nat)
    requires AreProjects(names, projects) && n <= |names|
  {
    n == 0 || (FirstAccepted(types, projects, names, n - 1) && Accepted(types, projects.entries[names[n - 1]]))
  }

  lemma {:induction false} FirstAcceptedAre(types: Types, projects: Plist, names: seq<Project>, n: nat)
    requires AreProjects(names, projects) && n <= |names|
    ensures FirstAccepted(types, projects, names, n) <==>
      forall i :: 0 <= i < n ==> Accepted(types, projects.entries[names[i]])
  {
    if n == 0 {
    } else {
      FirstAcceptedAre(types, projects, names, n - 1);
    }
  }

  lemma {:induction false} FewerAccepted(types: Types, projects: Plist, names: seq<Project>, n: nat, m: nat)
    requires AreProjects(names, projects) && m <= n <= |names| && FirstAccepted(types, projects, names, n)
    ensures FirstAccepted(types, projects, names, m)
  {
    if m == n {
    } else {
      FewerAccepted(types, projects, names, n - 1, m);
    }
  }

  lemma {:induction false} FirstSucceedExactly(types: Types, rows: Rows, build: Build, projects: Plist,
                                               names: seq<Project>, n: nat)
    requires AllSane(projects) && AreProjects(names, projects) && n <= |names|
    ensures SetProjects(types, rows, build, projects, names, n).ok <==> FirstAccepted(types, projects, names, n)
    decreases projects, 0, n
  {
    if n == 0 {
    } else {
      FirstSucceedExactly(types, rows, build, projects, names, n - 1);
      var so := SetProjects(types, rows, build, projects, names, n - 1);
      if so.ok {
        SucceedsExactly(types, so.rows, build, Some(names[n - 1]), projects.entries[names[n - 1]]);
      }
    }
  }

  // ------------------------------------------------------------- what a failure leaves

  ghost predicate AllCanBeSet(types: Types, entries: map<string, Plist>, keys: seq<Property>, n: nat)
    requires n <= |keys|
  {
    forall i :: 0 <= i < n ==> CanSet(types, entries, keys[i])
  }

  lemma NextProp(types: Types, rows: Rows, build: Build, project: Option<Project>,
                 entries: map<string, Plist>, keys: seq<Property>, n: nat, q: Property)
    requires n < |keys| && (forall i :: 0 <= i < |keys| ==> keys[i] in entries)
    requires (forall p :: p in entries && !Pseudo(p) ==> Storable(entries[p])) && !Pseudo(q)
    ensures var so := SetProps(types, rows, build, project, entries, keys, n);
      At(SetProps(types, rows, build, project, entries, keys, n + 1).rows, Slot(build, project, q)) ==
        if so.ok && keys[n] == q && CanSet(types, entries, q) then Cells(entries[q])
        else At(so.rows, Slot(build, project, q))
  {
  }

  lemma {:induction false} PropsLeaveOthers(types: Types, rows: Rows, build: Build, project: Option<Project>,
                                            entries: map<string, Plist>, keys: seq<Property>, m: nat, n: nat,
                                            q: Property)
    requires m <= n <= |keys| && (forall i :: 0 <= i < |keys| ==> keys[i] in entries)
    requires forall i :: m <= i < n ==> keys[i] != q
    requires forall p :: p in entries && !Pseudo(p) ==> Storable(entries[p])
    ensures At(SetProps(types, rows, build, project, entries, keys, n).rows, Slot(build, project, q)) ==
      At(SetProps(types, rows, build, project, entries, keys, m).rows, Slot(build, project, q))
  {
    if m == n {
    } else {
      PropsLeaveOthers(types, rows, build, project, entries, keys, m, n - 1, q);
    }
  }

  /** The property and all before it, in text order, can be stored. */
  ghost predicate ReachedAndSet(types: Types, entries: map<string, Plist>, q: Property) {
    forall p :: p in entries && Leq(p, q) ==> CanSet(types, entries, p)
  }

  lemma ReachedInOrder(types: Types, entries: map<string, Plist>, keys: seq<Property>, k: nat)
    requires keys == Sorted(entries.Keys) && k < |keys|
    ensures AllCanBeSet(types, entries, keys, k + 1) <==> ReachedAndSet(types, entries, keys[k])
  {
    forall p | p in entries
      ensures Leq(p, keys[k]) <==> exists i :: 0 <= i <= k && keys[i] == p
    {
      assert p in keys;
      var i :| 0 <= i < |keys| && keys[i] == p;
      if i > k && Leq(p, keys[k]) {
        LeqAntisymmetric(keys[i], keys[k]);
      }
      LeqTotal(p, p);
    }
    forall i | 0 <= i <= k
      ensures keys[i] in entries && Leq(keys[i], keys[k])
    {
      assert keys[i] in keys;
    }
  }

  lemma OneUntilFailure(types: Types, rows: Rows, build: Build, project: Option<Project>,
                        entries: map<string, Plist>, keys: seq<Property>, k: nat)
    requires k < |keys| && Distinct(keys) && (forall i :: 0 <= i < |keys| ==> keys[i] in entries)
    requires (forall p :: p in entries && !Pseudo(p) ==> Storable(entries[p])) && !Pseudo(keys[k])
    ensures At(SetProps(types, rows, build, project, entries, keys, |keys|).rows, Slot(build, project, keys[k])) ==
      if SetProps(types, rows, build, project, entries, keys, k).ok && CanSet(types, entries, keys[k])
      then Cells(entries[keys[k]])
      else At(rows, Slot(build, project, keys[k]))
  {
    PropsLeaveOthers(types, rows, build, project, entries, keys, 0, k, keys[k]);
    NextProp(types, rows, build, project, entries, keys, k, keys[k]);
    PropsLeaveOthers(types, rows, build, project, entries, keys, k + 1, |keys|, keys[k]);
  }

  lemma MentionedUntilFailure(types: Types, rows: Rows, build: Build, project: Option<Project>,
                              entries: map<string, Plist>, keys: seq<Property>, k: nat)
    requires keys == Sorted(entries.Keys) && k < |keys|
    requires (forall p :: p in entries && !Pseudo(p) ==> Storable(entries[p])) && !Pseudo(keys[k])
    ensures At(SetOwn(types, rows, build, project, entries).rows, Slot(build, project, keys[k])) ==
      if ReachedAndSet(types, entries, keys[k]) then Cells(entries[keys[k]])
      else At(rows, Slot(build, project, keys[k]))
  {
    var dropped := Dropped(rows, build, project, entries.Keys);
    OneUntilFailure(types, dropped, build, project, entries, keys, k);
    ReachedSoFar(types, dropped, build, project, entries, keys, k);
    KeptIfMentioned(rows, build, project, entries.Keys, keys[k]);
  }

  lemma ReachedSoFar(types: Types, rows: Rows, build: Build, project: Option<Project>,
                     entries: map<string, Plist>, keys: seq<Property>, k: nat)
    requires keys == Sorted(entries.Keys) && k < |keys|
    requires forall p :: p in entries && !Pseudo(p) ==> Storable(entries[p])
    ensures keys[k] in entries
    ensures SetProps(types, rows, build, project, entries, keys, k).ok && CanSet(types, entries, keys[k]) <==>
      ReachedAndSet(types, entries, keys[k])
  {
    PropsSucceed(types, rows, build, project, entries, keys, k);
    ReachedInOrder(types, entries, keys, k);
    assert keys[k] in keys;
  }

  lemma KeptIfMentioned(rows: Rows, build: Build, project: Option<Project>, mentioned: set<Property>, q: Property)
    requires q in mentioned
    ensures At(Dropped(rows, build, project, mentioned), Slot(build, project, q)) == At(rows, Slot(build, project, q))
  {
  }

  /** Whatever happens, properties that are not mentioned go; the others are written in text order up to the
      first that cannot be, and from there on keep the rows they had. */
  lemma OwnUntilFailure(types: Types, rows: Rows, build: Build, project: Option<Project>,
                        entries: map<string, Plist>, q: Property)
    requires (forall p :: p in entries && !Pseudo(p) ==> Storable(entries[p])) && !Pseudo(q)
    ensures At(SetOwn(types, rows, build, project, entries).rows, Slot(build, project, q)) ==
      if q !in entries then []
      else if ReachedAndSet(types, entries, q) then Cells(entries[q])
      else At(rows, Slot(build, project, q))
  {
    var keys := Sorted(entries.Keys);
    if q in entries {
      assert q in keys;
      var k :| 0 <= k < |keys| && keys[k] == q;
      MentionedUntilFailure(types, rows, build, project, entries, keys, k);
    } else {
      PropsLeaveOthers(types, Dropped(rows, build, project, entries.Keys), build, project, entries, keys, 0, |keys|,
        q);
    }
  }

  // ------------------------------------------------------------- projects after a failure

  /** The rows of one build and project. */
  ghost predicate SameRows(before: Rows, after: Rows, build: Build, project: Option<Project>) {
    forall q :: Find(after, Slot(build, project, q)) == Find(before, Slot(build, project, q))
  }

  lemma PlainKeepsOther(types: Types, rows: Rows, build: Build, k: Project, plist: Plist, other: Project)
    requires Plain(plist) && Sane(plist) && CString(k) != other && NUL !in build
    ensures SameRows(rows, Stored(types, rows, build, Some(k), plist).rows, build, Some(other))
  {
    forall q
      ensures Find(Stored(types, rows, build, Some(k), plist).rows, Slot(build, Some(other), q)) ==
        Find(rows, Slot(build, Some(other), q))
    {
      OthersAreKept(types, rows, build, Some(k), plist, Slot(build, Some(other), q));
    }
  }

  /** A project is not touched before its turn, nor once one before it has failed. */
  lemma {:induction false} ProjectUntouched(types: Types, rows: Rows, build: Build, projects: Plist,
                                            names: seq<Project>, n: nat, i: nat)
    requires AllSane(projects) && AllPlain(projects) && AreProjects(names, projects) && Distinct(names)
    requires n <= |names| && i < |names| && NUL !in build
    requires n <= i || !FirstAccepted(types, projects, names, i)
    ensures SameRows(rows, SetProjects(types, rows, build, projects, names, n).rows, build, Some(CString(names[i])))
    decreases n
  {
    if n == 0 {
    } else {
      ProjectUntouched(types, rows, build, projects, names, n - 1, i);
      var so := SetProjects(types, rows, build, projects, names, n - 1);
      FirstSucceedExactly(types, rows, build, projects, names, n - 1);
      if so.ok {
        if i <= n - 1 {
          FewerAccepted(types, projects, names, n - 1, i);
        }
        assert names[n - 1] != names[i];
        assert CString(names[n - 1]) != CString(names[i]);
        PlainKeepsOther(types, so.rows, build, names[n - 1], projects.entries[names[n - 1]], CString(names[i]));
      }
    }
  }

  lemma JustWritten(types: Types, rows: Rows, build: Build, projects: Plist, names: seq<Project>, i: nat)
    requires AllSane(projects) && AllPlain(projects) && AreProjects(names, projects) && i < |names|
    requires NUL !in build && FirstAccepted(types, projects, names, i + 1)
    ensures Holds(types, SetProjects(types, rows, build, projects, names, i + 1).rows, build, Some(CString(names[i])),
      EntriesOf(projects.entries[names[i]]))
  {
    var so := SetProjects(types, rows, build, projects, names, i);
    var sub := projects.entries[names[i]];
    FirstSucceedExactly(types, rows, build, projects, names, i);
    SucceedsExactly(types, so.rows, build, Some(names[i]), sub);
    PlainHolds(types, so.rows, build, names[i], sub);
  }

  lemma RowsStay(types: Types, rows: Rows, build: Build, projects: Plist, names: seq<Project>, n: nat, i: nat)
    requires AllSane(projects) && AllPlain(projects) && AreProjects(names, projects) && Distinct(names)
    requires i < n < |names| && NUL !in build
    ensures SameRows(SetProjects(types, rows, build, projects, names, n).rows,
      SetProjects(types, rows, build, projects, names, n + 1).rows, build, Some(CString(names[i])))
  {
    var so := SetProjects(types, rows, build, projects, names, n);
    if so.ok {
      assert names[n] != names[i];
      PlainKeepsOther(types, so.rows, build, names[n], projects.entries[names[n]], CString(names[i]));
    }
  }

  /** Once written, the rows of a project are not touched by those behind it. */
  lemma {:induction false} RowsStayFrom(types: Types, rows: Rows, build: Build, projects: Plist, names: seq<Project>,
                                        n: nat, i: nat)
    requires AllSane(projects) && AllPlain(projects) && AreProjects(names, projects) && Distinct(names)
    requires i < n <= |names| && NUL !in build
    ensures SameRows(SetProjects(types, rows, build, projects, names, i + 1).rows,
      SetProjects(types, rows, build, projects, names, n).rows, build, Some(CString(names[i])))
    decreases n
  {
    if n == i + 1 {
    } else {
      RowsStayFrom(types, rows, build, projects, names, n - 1, i);
      RowsStay(types, rows, build, projects, names, n - 1, i);
    }
  }

  lemma ProjectWritten(types: Types, rows: Rows, build: Build, projects: Plist, names: seq<Project>, i: nat)
    requires AllSane(projects) && AllPlain(projects) && AreProjects(names, projects) && Distinct(names)
    requires i < |names| && NUL !in build && FirstAccepted(types, projects, names, i + 1)
    ensures Holds(types, SetProjects(types, rows, build, projects, names, |names|).rows, build,
      Some(CString(names[i])), EntriesOf(projects.entries[names[i]]))
  {
    JustWritten(types, rows, build, projects, names, i);
    RowsStayFrom(types, rows, build, projects, names, |names|, i);
    HoldsStill(types, SetProjects(types, rows, build, projects, names, i + 1).rows,
      SetProjects(types, rows, build, projects, names, |names|).rows, build, Some(CString(names[i])),
      EntriesOf(projects.entries[names[i]]));
  }

  lemma AcceptedUpTo(types: Types, projects: Plist, names: seq<Project>, i: nat)
    requires AreProjects(names, projects) && i < |names| && SortedBy(names, x => x)
    requires forall j :: j in projects.entries && Leq(j, names[i]) ==> Accepted(types, projects.entries[j])
    ensures FirstAccepted(types, projects, names, i + 1)
  {
    LeqTotal(names[i], names[i]);
    FirstAcceptedAre(types, projects, names, i + 1);
  }

  lemma NotAcceptedBefore(types: Types, projects: Plist, names: seq<Project>, i: nat, j: Project)
    requires AreProjects(names, projects) && i < |names| && SortedBy(names, x => x)
    requires j in names && Less(j, names[i]) && !Accepted(types, projects.entries[j])
    ensures !FirstAccepted(types, projects, names, i)
  {
    var h :| 0 <= h < |names| && names[h] == j;
    if h > i {
      LeqAntisymmetric(names[i], names[h]);
    }
    FirstAcceptedAre(types, projects, names, i);
  }

  /** The projects inside are written in text order up to the first that fails: those before it are as the
      plist says, and those behind it keep the rows they had. */
  lemma ProjectsUntilFailure(types: Types, rows: Rows, build: Build, projects: Plist, k: Project)
    requires AllSane(projects) && AllPlain(projects) && k in projects.entries && NUL !in build
    ensures (forall j :: j in projects.entries && Leq(j, k) ==> Accepted(types, projects.entries[j])) ==>
      Holds(types, SetAllProjects(types, rows, build, projects).rows, build, Some(CString(k)),
        EntriesOf(projects.entries[k]))
    ensures (exists j :: j in projects.entries && Less(j, k) && !Accepted(types, projects.entries[j])) ==>
      SameRows(rows, SetAllProjects(types, rows, build, projects).rows, build, Some(CString(k)))
  {
    var names := Sorted(projects.entries.Keys);
    assert k in names;
    var i :| 0 <= i < |names| && names[i] == k;
    if forall j :: j in projects.entries && Leq(j, k) ==> Accepted(types, projects.entries[j]) {
      AcceptedUpTo(types, projects, names, i);
      ProjectWritten(types, rows, build, projects, names, i);
    }
    if j :| j in projects.entries && Less(j, k) && !Accepted(types, projects.entries[j]) {
      NotAcceptedBefore(types, projects, names, i, j);
      ProjectUntouched(types, rows, build, projects, names, |names|, i);
    }
  }

  // ------------------------------------------------------------- the whole plist

  lemma OwnRowsStay(types: Types, rows: Rows, build: Build, project: Option<Project>, plist: Plist, q: Property)
    requires Sane(plist) && WellFormed(plist)
    requires "projects" in plist.entries ==> (build, project) !in TouchedInside(build, plist.entries["projects"])
    ensures Find(StoredAt(types, rows, build, project, plist).rows, Slot(build, project, q)) ==
      Find(SetOwn(types, rows, build, project, plist.entries).rows, Slot(build, project, q))
  {
    var own := SetOwn(types, rows, build, project, plist.entries);
    if own.ok && "projects" in plist.entries {
      var projects := plist.entries["projects"];
      var names := Sorted(projects.entries.Keys);
      OthersAreKeptInside(types, own.rows, build, projects, names, |names|, Slot(build, project, q));
    }
  }

  lemma NotTouchedInside(plist: Plist, b: string, p: Option<Project>)
    requires Sane(plist) && WellFormed(plist) && !Inside(plist, p)
    requires "projects" in plist.entries ==> AllPlain(plist.entries["projects"])
    ensures "projects" in plist.entries ==> (CString(b), p) !in TouchedInside(CString(b), plist.entries["projects"])
  {
    if "projects" in plist.entries && (CString(b), p) in TouchedInside(CString(b), plist.entries["projects"]) {
      PlainTouches(CString(b), plist.entries["projects"], (CString(b), p));
    }
  }

  /** Success or failure, this is what the plist's own build or project has in the end. */
  lemma OwnAfterwards(types: Types, rows: Rows, build: Build, project: Option<Project>, plist: Plist,
                      b: string, p: Option<string>, q: Property)
    requires Sane(plist) && BelongsTo(plist, build, project, b, p) && !Inside(plist, NamedBy(p)) && !Pseudo(q)
    ensures At(Stored(types, rows, build, project, plist).rows, Slot(CString(b), NamedBy(p), q)) ==
      if q !in plist.entries then []
      else if ReachedAndSet(types, plist.entries, q) then Cells(plist.entries[q])
      else At(rows, Slot(CString(b), NamedBy(p), q))
  {
    PlaceIsTold(plist, build, project, b, p);
    NotTouchedInside(plist, b, NamedBy(p));
    OwnRowsStay(types, rows, CString(b), NamedBy(p), plist, q);
    OwnUntilFailure(types, rows, CString(b), NamedBy(p), plist.entries, q);
    var slot := Slot(CString(b), NamedBy(p), q);
    var own := SetOwn(types, rows, CString(b), NamedBy(p), plist.entries).rows;
    SameAt(own, Stored(types, rows, build, project, plist).rows, slot);
  }

  lemma SameAt(before: Rows, after: Rows, slot: Slot)
    requires Find(after, slot) == Find(before, slot)
    ensures At(after, slot) == At(before, slot)
  {
  }

  lemma OwnKeepsInside(types: Types, rows: Rows, plist: Plist, b: string, p: Option<string>, k: Project)
    requires Sane(plist) && WellFormed(plist) && !Inside(plist, NamedBy(p))
    requires "projects" in plist.entries && k in plist.entries["projects"].entries
    ensures SameRows(rows, SetOwn(types, rows, CString(b), NamedBy(p), plist.entries).rows, CString(b),
      Some(CString(k)))
  {
    assert NamedBy(p) != Some(CString(k));
    forall q
      ensures Find(SetOwn(types, rows, CString(b), NamedBy(p), plist.entries).rows,
        Slot(CString(b), Some(CString(k)), q)) == Find(rows, Slot(CString(b), Some(CString(k)), q))
    {
      SetOwnKeeps(types, rows, CString(b), NamedBy(p), plist.entries, Slot(CString(b), Some(CString(k)), q));
    }
  }

  lemma SameRowsTwice(a: Rows, b: Rows, c: Rows, build: Build, project: Option<Project>)
    requires SameRows(a, b, build, project) && SameRows(b, c, build, project)
    ensures SameRows(a, c, build, project)
  {
    forall q
      ensures Find(c, Slot(build, project, q)) == Find(a, Slot(build, project, q))
    {
      assert Find(b, Slot(build, project, q)) == Find(a, Slot(build, project, q));
    }
  }

  /** The plist's own properties can all be stored, and so can the projects up to k. */
  ghost predicate Reached(types: Types, plist: Plist, k: Project)
    requires WellFormed(plist) && "projects" in plist.entries
  {
    && (forall q :: CanSet(types, plist.entries, q))
    && forall j :: j in plist.entries["projects"].entries && Leq(j, k) ==>
      Accepted(types, plist.entries["projects"].entries[j])
  }

  /** The plist's own properties or a project before k cannot be stored. */
  ghost predicate FailsBefore(types: Types, plist: Plist, k: Project)
    requires WellFormed(plist) && "projects" in plist.entries
  {
    || (exists q :: !CanSet(types, plist.entries, q))
    || exists j ::
      j in plist.entries["projects"].entries && Less(j, k) && !Accepted(types, plist.entries["projects"].entries[j])
  }

  lemma ReachedInside(types: Types, rows: Rows, build: Build, project: Option<Project>, plist: Plist, k: Project)
    requires Sane(plist) && WellFormed(plist) && NUL !in build
    requires "projects" in plist.entries && AllPlain(plist.entries["projects"])
    requires k in plist.entries["projects"].entries && Reached(types, plist, k)
    ensures Holds(types, StoredAt(types, rows, build, project, plist).rows, build, Some(CString(k)),
      EntriesOf(plist.entries["projects"].entries[k]))
  {
    var own := SetOwn(types, rows, build, project, plist.entries);
    OwnSucceeds(types, rows, build, project, plist.entries);
    ProjectsUntilFailure(types, own.rows, build, plist.entries["projects"], k);
  }

  lemma FailedBefore(types: Types, rows: Rows, build: Build, project: Option<Project>, plist: Plist, k: Project)
    requires Sane(plist) && WellFormed(plist) && NUL !in build
    requires "projects" in plist.entries && AllPlain(plist.entries["projects"])
    requires k in plist.entries["projects"].entries && FailsBefore(types, plist, k)
    ensures SameRows(SetOwn(types, rows, build, project, plist.entries).rows,
      StoredAt(types, rows, build, project, plist).rows, build, Some(CString(k)))
  {
    var own := SetOwn(types, rows, build, project, plist.entries);
    OwnSucceeds(types, rows, build, project, plist.entries);
    if own.ok {
      ProjectsUntilFailure(types, own.rows, build, plist.entries["projects"], k);
    }
  }

  /** And this is what each of the projects inside has. */
  lemma InsideAfterwards(types: Types, rows: Rows, build: Build, project: Option<Project>, plist: Plist,
                         b: string, p: Option<string>, k: Project)
    requires Sane(plist) && BelongsTo(plist, build, project, b, p) && !Inside(plist, NamedBy(p))
    requires "projects" in plist.entries && k in plist.entries["projects"].entries
    ensures Reached(types, plist, k) ==>
      Holds(types, Stored(types, rows, build, project, plist).rows, CString(b), Some(CString(k)),
        EntriesOf(plist.entries["projects"].entries[k]))
    ensures FailsBefore(types, plist, k) ==>
      SameRows(rows, Stored(types, rows, build, project, plist).rows, CString(b), Some(CString(k)))
  {
    PlaceIsTold(plist, build, project, b, p);
    if Reached(types, plist, k) {
      ReachedInside(types, rows, CString(b), NamedBy(p), plist, k);
    }
    if FailsBefore(types, plist, k) {
      FailedBefore(types, rows, CString(b), NamedBy(p), plist, k);
      OwnKeepsInside(types, rows, plist, b, p, k);
      SameRowsTwice(rows, SetOwn(types, rows, CString(b), NamedBy(p), plist.entries).rows,
        Stored(types, rows, build, project, plist).rows, CString(b), Some(CString(k)));
    }
  }
}
