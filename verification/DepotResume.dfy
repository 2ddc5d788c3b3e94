/**
 Uninstalls that are run again: after a stop between two files, and after a failure.
 */
module DepotResume {
  import opened Wrappers
  import opened FileSystem
  import opened PathOrder
  import opened DepotModel
  import opened DepotInvariant
  import opened DepotLayers

  /** Files of an archive that are all done before any directory above them. */
  ghost predicate ChildrenFirst(files: Files, a: nat, done: set<Path>) {
    forall d, p :: d in done && Key(a, p) in files && Ancestor(d, p) ==> p in done
  }

  // ------------------------------------------------------------- one path

  lemma NotYetDone(st: State, a: nat, done: set<Path>, p: Path)
    requires ChildrenFirst(st.files, a, done) && Key(a, p) in st.files && p !in done
    ensures Get(UninstallDisk(st, a, done), p) == Get(st.disk, p)
  {
  }

  /** A file that is still there as the archive had it was not changed. */
  lemma CurrentWasCurrent(st: State, a: nat, done: set<Path>, p: Path)
    ensures var mid := PartialUninstall(st, a, done);
      Current(mid, a, p) ==> Current(st, a, p) && mid.disk[p] == st.disk[p]
  {
  }

  /** Doing a file twice is doing it once. */
  lemma DoneTwice(st: State, a: nat, done: set<Path>, p: Path)
    requires p in done
    ensures var mid := PartialUninstall(st, a, done);
      Reverted(mid, a, p) == Get(mid.disk, p)
  {
    CurrentWasCurrent(st, a, done, p);
  }

  lemma DoneLater(st: State, a: nat, done: set<Path>, p: Path)
    requires ChildrenFirst(st.files, a, done) && p !in done && Key(a, p) in st.files
    ensures var mid := PartialUninstall(st, a, done);
      && Get(mid.disk, p) == Get(st.disk, p)
      && (Current(mid, a, p) <==> Current(st, a, p))
      && Reverted(mid, a, p) == Reverted(st, a, p)
  {
    NotYetDone(st, a, done, p);
  }

  lemma RemovedLater(st: State, a: nat, done: set<Path>, p: Path)
    requires ChildrenFirst(st.files, a, done)
    ensures Removed(PartialUninstall(st, a, done), a, p) <==> Removed(st, a, p) && p !in done
  {
    if p in done {
      DoneTwice(st, a, done, p);
    } else if Key(a, p) in st.files {
      DoneLater(st, a, done, p);
    }
  }

  // ------------------------------------------------------------- the whole disk

  lemma SweptInTurn(st: State, a: nat, done: set<Path>, all: set<Path>, p: Path)
    requires ChildrenFirst(st.files, a, done) && done <= all
    ensures Swept(st, a, all, p) <==> Swept(st, a, done, p) || Swept(PartialUninstall(st, a, done), a, all, p)
  {
    var mid := PartialUninstall(st, a, done);
    forall d
      ensures Removed(mid, a, d) <==> Removed(st, a, d) && d !in done
    {
      RemovedLater(st, a, done, d);
    }
    if Swept(st, a, all, p) {
      var d :| d in all && Removed(st, a, d) && (d == p || Ancestor(d, p));
      assert d in done ==> Swept(st, a, done, p);
      assert d !in done ==> Removed(mid, a, d);
    }
    if Swept(mid, a, all, p) {
      var d :| d in all && Removed(mid, a, d) && (d == p || Ancestor(d, p));
      assert Removed(st, a, d);
    }
  }

  lemma RestInTurn(st: State, a: nat, done: set<Path>, p: Path)
    requires ChildrenFirst(st.files, a, done) && done <= PathsOf(st.files, a)
    ensures var all := PathsOf(st.files, a);
      Get(UninstallDisk(PartialUninstall(st, a, done), a, all), p) == Get(UninstallDisk(st, a, all), p)
  {
    SweptInTurn(st, a, done, PathsOf(st.files, a), p);
    if p in done {
      DoneTwice(st, a, done, p);
    } else if Key(a, p) in st.files {
      DoneLater(st, a, done, p);
    }
  }

  lemma RestIsDone(st: State, a: nat, done: set<Path>)
    requires ChildrenFirst(st.files, a, done) && done <= PathsOf(st.files, a)
    ensures LeftInactive(PartialUninstall(st, a, done), a) == LeftInactive(st, a)
  {
    var mid := PartialUninstall(st, a, done);
    forall p
      ensures Get(LeftInactive(mid, a).disk, p) == Get(LeftInactive(st, a).disk, p)
    {
      RestInTurn(st, a, done, p);
    }
    SameDisk(LeftInactive(mid, a).disk, LeftInactive(st, a).disk);
    assert Deactivated(Deactivated(st.archives, a), a) == Deactivated(st.archives, a);
  }

  // ------------------------------------------------------------- failures

  lemma FailingStays(st: State, a: nat, done: set<Path>, p: Path)
    requires done <= PathsOf(st.files, a)
    requires IsFirst(p, PathsOf(st.files, a)) && LacksBytes(st, a, p)
    ensures Get(UninstallDisk(st, a, done), p) == Some(st.disk[p])
  {
    forall d | d in done
      ensures !Ancestor(d, p)
    {
      if Ancestor(d, p) {
        NothingAboveFirst(p, d, PathsOf(st.files, a));
      }
    }
  }

  lemma FailsAlike(st: State, a: nat, done: set<Path>)
    requires done <= PathsOf(st.files, a)
    ensures UninstallFails(PartialUninstall(st, a, done), a) <==> UninstallFails(st, a)
  {
    var mid := PartialUninstall(st, a, done);
    if UninstallFails(st, a) {
      var p :| IsFirst(p, PathsOf(st.files, a)) && LacksBytes(st, a, p);
      FailingStays(st, a, done, p);
      assert LacksBytes(mid, a, p);
    }
    if UninstallFails(mid, a) {
      var p :| IsFirst(p, PathsOf(mid.files, a)) && LacksBytes(mid, a, p);
      CurrentWasCurrent(st, a, done, p);
      assert LacksBytes(st, a, p);
    }
  }

  /** A failed uninstall fails again and changes nothing more, until somebody edits the file. */
  lemma FailureRepeats(st: State, a: nat)
    requires Installed(st, a) && UninstallFails(st, a)
    ensures UninstallFails(Uninstall(st, a), a)
    ensures Uninstall(Uninstall(st, a), a) == Uninstall(st, a)
  {
    var all := PathsOf(st.files, a);
    assert forall p :: Key(a, p) in st.files ==> Key(a, p).path in all;
    FailsAlike(st, a, all);
    RestIsDone(st, a, all);
  }

  // ------------------------------------------------------------- rows

  /** A row that goes along with the archive's own, but not any more once its file was changed. */
  ghost predicate StaysBehind(st: State, a: nat, done: set<Path>, k: Key) {
    Discarded(st, a, k) && k.path in done && Get(UninstallDisk(st, a, done), k.path) != Get(st.disk, k.path)
  }

  lemma DiscardedInTurn(st: State, a: nat, done: set<Path>, k: Key)
    requires ChildrenFirst(st.files, a, done)
    ensures Discarded(PartialUninstall(st, a, done), a, k) <==> Discarded(st, a, k) && !StaysBehind(st, a, done, k)
  {
    CurrentWasCurrent(st, a, done, k.path);
    if Discarded(st, a, k) && k.path !in done {
      DoneLater(st, a, done, k.path);
    }
  }

  /** An uninstall that stops between two files and is run again: the same outcome and the same
      disk as without the stop, but of the rows that would have gone along with the archive's own, those
      of files already changed stay behind. */
  lemma ResumedUninstall(st: State, a: nat, done: set<Path>)
    requires Installed(st, a) && ChildrenFirst(st.files, a, done) && done <= PathsOf(st.files, a)
    ensures var mid := PartialUninstall(st, a, done);
      && (UninstallFails(mid, a) <==> UninstallFails(st, a))
      && (UninstallFails(st, a) ==> Uninstall(mid, a) == Uninstall(st, a))
      && Uninstall(mid, a).disk == Uninstall(st, a).disk
    ensures !UninstallFails(st, a) ==>
      var mid := PartialUninstall(st, a, done);
      forall k :: RowAt(Uninstall(mid, a).files, k) ==
        (if StaysBehind(st, a, done, k) then RowAt(st.files, k) else RowAt(Uninstall(st, a).files, k))
  {
    FailsAlike(st, a, done);
    RestIsDone(st, a, done);
    if !UninstallFails(st, a) {
      forall k
        ensures RowAt(Uninstall(PartialUninstall(st, a, done), a).files, k) ==
          if StaysBehind(st, a, done, k) then RowAt(st.files, k) else RowAt(Uninstall(st, a).files, k)
      {
        DiscardedInTurn(st, a, done, k);
      }
    }
  }

  lemma SameRows(f: Files, g: Files)
    requires forall k :: RowAt(f, k) == RowAt(g, k)
    ensures f == g
  {
    assert forall k :: (k in f <==> RowAt(f, k).Some?) && (k in g <==> RowAt(g, k).Some?);
    assert forall k :: k in f ==> RowAt(f, k) == Some(f[k]) && RowAt(g, k) == Some(g[k]);
  }

  /** Without edits no rows go along, and nothing is left of the stop. */
  lemma UndisturbedResumes(st: State, base: Disk, a: nat, done: set<Path>)
    requires Undisturbed(st, base) && Installed(st, a)
    requires ChildrenFirst(st.files, a, done) && done <= PathsOf(st.files, a)
    ensures Uninstall(PartialUninstall(st, a, done), a) == Uninstall(st, a)
  {
    var mid := PartialUninstall(st, a, done);
    ResumedUninstall(st, a, done);
    UninstallSucceeds(st, base, a);
    forall k
      ensures RowAt(RemainingFiles(mid, a), k) == RowAt(RemainingFiles(st, a), k)
    {
      if k in st.files {
        NothingDiscarded(st, base, a, k);
      }
    }
    SameRows(RemainingFiles(mid, a), RemainingFiles(st, a));
    assert mid.archives - {a} == st.archives - {a};
  }
}
