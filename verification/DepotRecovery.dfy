/**
 Installs and uninstalls that stop between two files, and the uninstalls that are to make up
 for it, as the program runs them.
 */
module DepotRecovery {
  import opened Wrappers
  import opened FileSystem
  import opened DepotModel
  import opened DepotInvariant
  import opened DepotLayers
  import opened DepotRepair
  import opened DepotResume
  import opened DepotSteps
  import opened DepotProgram

  lemma StoppedIsValid(st: State, stage: Disk, list: seq<Path>, n: nat)
    requires Valid(st) && Extracted(stage) && !Conflict(st, stage)
    requires InPathOrder(list, stage) && n <= |list|
    ensures Valid(PartialInstall(st, stage, FirstOf(list, n), false))
    ensures Installed(PartialInstall(st, stage, FirstOf(list, n), false), ArchiveSerial(st))
    ensures FirstOf(list, n) <= stage.Keys
  {
    PlacedIsClosed(list, stage, n);
    PartialInstallKeepsValid(st, stage, FirstOf(list, n), false);
  }

  /** "Rolling back installation": the root's first n files are in place when the install
      stops, wherever that is; the uninstall brings the old disk back exactly if all of them
      are safe, and reports success exactly if the root's first path was not among them or
      did not replace bytes that are nowhere in store. */
  method RollBackInstall(depot: Depot, stage: Disk, walk: seq<Path>, stop: nat)
      returns (installed: int, repaired: int, list: seq<Path>, n: nat)
    requires Valid(depot.View()) && depot.Idle() && Extracted(stage) && IsWalk(walk, stage)
    modifies depot
    ensures installed == if Conflict(old(depot.View()), stage) then DEPOT_PREINSTALL_ERR else DEPOT_OK
    ensures installed != DEPOT_OK ==> depot.View() == old(depot.View())
    ensures installed == DEPOT_OK ==>
      && InPathOrder(list, stage) && n == UpTo(list, Some(stop))
      && (depot.disk == old(depot.disk) <==>
            forall p :: p in FirstOf(list, n) ==> p in stage && SafeAt(old(depot.View()), stage, p))
      && (repaired == DEPOT_OK <==> !FirstLacksBytes(old(depot.View()), stage, FirstOf(list, n)))
    ensures Valid(depot.View()) && depot.Idle()
  {
    ghost var st := depot.View();
    var a := depot.next + 1;
    installed, list, n := depot.InstallUntil(stage, walk, Some(stop));
    repaired := DEPOT_OK;
    if installed == DEPOT_OK {
      StoppedIsValid(st, stage, list, n);
      repaired := depot.Uninstall(a);
      UninstallRepairs(st, stage, FirstOf(list, n), false);
      RepairFails(st, stage, FirstOf(list, n), false);
      UninstallKeepsValid(PartialInstall(st, stage, FirstOf(list, n), false), a);
    }
  }

  lemma ReverseIsChildrenFirst(list: seq<Path>, files: Files, a: nat, n: nat)
    requires ReverseOrder(list, files, a) && n <= |list|
    ensures ChildrenFirst(files, a, FirstOf(list, n)) && FirstOf(list, n) <= PathsOf(files, a)
  {
    forall d, p | d in FirstOf(list, n) && Key(a, p) in files && Ancestor(d, p)
      ensures p in FirstOf(list, n)
    {
      var i :| 0 <= i < n && list[i] == d;
      RemovalOrder(list, files, a, i);
    }
    forall d | d in FirstOf(list, n)
      ensures d in PathsOf(files, a)
    {
      assert d in list && Key(a, d).path in PathsOf(files, a);
    }
  }

  /** An uninstall that stops between two files, wherever that is, and is run again: the disk and
      the outcome are those of one run, the rows are those of one run but for those that stay behind,
      and while nobody edits files everything is as after one run. */
  method ResumeUninstall(depot: Depot, a: nat, stop: nat, ghost base: Disk)
      returns (res: int, list: seq<Path>, n: nat)
    requires Valid(depot.View()) && depot.Idle() && Installed(depot.View(), a)
    modifies depot
    ensures depot.disk == DepotModel.Uninstall(old(depot.View()), a).disk
    ensures res == if UninstallFails(old(depot.View()), a) then DEPOT_ERROR else DEPOT_OK
    ensures ReverseOrder(list, old(depot.files), a) && n == UpTo(list, Some(stop))
    ensures res == DEPOT_OK ==>
      forall k ::
        RowAt(depot.files, k) ==
          if StaysBehind(old(depot.View()), a, FirstOf(list, n), k) then RowAt(old(depot.files), k)
          else RowAt(DepotModel.Uninstall(old(depot.View()), a).files, k)
    ensures Undisturbed(old(depot.View()), base) ==>
      depot.View() == DepotModel.Uninstall(old(depot.View()), a)
    ensures Valid(depot.View()) && depot.Idle()
  {
    ghost var st := depot.View();
    list, n := depot.UninstallUntil(a, stop);
    ReverseIsChildrenFirst(list, st.files, a, n);
    PartialUninstallIsValid(st, a, FirstOf(list, n));
    ResumedUninstall(st, a, FirstOf(list, n));
    UninstallKeepsValid(PartialUninstall(st, a, FirstOf(list, n)), a);
    res := depot.Uninstall(a);
    if Undisturbed(st, base) {
      UndisturbedResumes(st, base, a, FirstOf(list, n));
    }
  }
}
