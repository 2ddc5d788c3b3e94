/**
 The depot program itself: the loops of darwinup/Depot.cpp and the file operations of
 darwinup/File.cpp, updating disk, tables and backing stores in place, and proved to
 compute the functions of DepotModel.
 */
module DepotProgram {
  import opened Wrappers
  import opened FileSystem
  import opened TextOrder
  import opened PathOrder
  import opened DepotModel
  import opened DepotNames
  import opened DepotInvariant
  import opened DepotLayers
  import opened DepotSteps
  import opened SerialSets

  datatype Errno = OK | ENOENT | EISDIR

  const DEPOT_OK: int := 0
  const DEPOT_ERROR: int := -1
  const DEPOT_OBJ_CHANGE: int := -4
  const DEPOT_PREINSTALL_ERR: int := -7

  datatype Snapshot = Snapshot(files: Files, archives: Archives, next: nat)

  class Depot {
    var disk: Disk
    var files: Files
    var archives: Archives
    var next: nat
    var store: Store
    /** Backing stores in their expanded state. */
    var expanded: Store
    /** The tables as they were when the open transaction began. */
    var transaction: Option<Snapshot>
    /** How often Directory::remove fell back to deleting a directory with its contents. */
    var recursiveDeletes: nat

    function View(): State
      reads this
    {
      State(disk, files, archives, store, next)
    }

    /** Between commands no transaction is open.  Stores that a stopped install left expanded may be about. */
    predicate Idle()
      reads this
    {
      transaction.None?
    }

    constructor (base: Disk)
      ensures View() == Fresh(base) && Idle() && expanded == map[] && recursiveDeletes == 0
    {
      disk, files, archives, next, store := base, map[], map[], 1, map[];
      expanded, transaction, recursiveDeletes := map[], None, 0;
    }

    // ----------------------------------------------------------- transactions

    method BeginTransaction()
      requires transaction.None?
      modifies `transaction
      ensures transaction == Some(Snapshot(files, archives, next))
    {
      transaction := Some(Snapshot(files, archives, next));
    }

    method CommitTransaction()
      modifies `transaction
      ensures transaction == None
    {
      transaction := None;
    }

    method RollbackTransaction()
      requires transaction.Some?
      modifies `transaction, `files, `archives, `next
      ensures transaction == None
      ensures Snapshot(files, archives, next) == old(transaction.value)
    {
      files, archives, next := transaction.value.files, transaction.value.archives, transaction.value.next;
      transaction := None;
    }

    // ----------------------------------------------------------- queries

    /** get_files: the paths of an archive's rows in the order of the path column. */
    method GetFiles(a: nat, reverse: bool) returns (list: seq<Path>)
      ensures forall p :: p in list <==> Key(a, p) in files
      ensures Distinct(list)
      ensures forall i, j :: 0 <= i < j < |list| ==>
        if reverse then Leq(PathText(list[j]), PathText(list[i])) else Leq(PathText(list[i]), PathText(list[j]))
    {
      var paths := PathsOf(files, a);
      assert forall p :: Key(a, p) in files ==> Key(a, p).path in paths;
      list := Sort(paths, PathText);
      if reverse {
        list := Reversed(list);
      }
    }

    static method Reversed(list: seq<Path>) returns (r: seq<Path>)
      ensures |r| == |list| && forall i :: 0 <= i < |list| ==> r[i] == list[|list| - 1 - i]
      ensures forall p :: p in r <==> p in list
    {
      r := [];
      var i := |list|;
      while i > 0
        invariant 0 <= i <= |list| && |r| == |list| - i
        invariant forall j :: 0 <= j < |r| ==> r[j] == list[|list| - 1 - j]
      {
        i := i - 1;
        r := r + [list[i]];
      }
      assert forall j :: 0 <= j < |list| ==> list[j] == r[|list| - 1 - j];
    }

    method FileSupersededBy(p: Path, a: nat) returns (found: bool)
      requires RowsKnown(View())
      ensures found == Superseded(files, p, a)
    {
      found := false;
      var t := a + 1;
      while t < next && !found
        invariant a < t && (t <= next || t == a + 1)
        invariant found ==> Superseded(files, p, a)
        invariant !found ==> forall u :: a < u < t ==> Key(u, p) !in files
        decreases next - t, !found
      {
        if Key(t, p) in files {
          found := true;
        } else {
          t := t + 1;
        }
      }
      if !found {
        forall u: nat | a < u
          ensures Key(u, p) !in files
        {
          if u >= next {
            FreshSerials(View(), u, p);
          }
        }
      }
    }

    // ----------------------------------------------------------- file operations

    predicate ParentsExist(p: Path)
      reads `disk
    {
      forall k :: 0 < k < |p| ==> p[..k] in disk && disk[p[..k]].Dir?
    }

    /** rename(2) from an expanded backing store to the system. */
    method Rename(s: nat, p: Path) returns (e: Errno)
      modifies `disk, `expanded
      ensures e ==
        if StoredCopy(old(expanded), s, p).None? || !old(ParentsExist(p)) then ENOENT
        else if p in old(disk) && old(disk)[p].Dir? then EISDIR
        else OK
      ensures e == OK ==>
        && disk == old(disk)[p := old(expanded)[s][p]]
        && expanded == old(expanded)[s := old(expanded)[s] - {p}]
      ensures e != OK ==> disk == old(disk) && expanded == old(expanded)
    {
      if s !in expanded || p !in expanded[s] || !ParentsExist(p) {
        return ENOENT;
      }
      if p in disk && disk[p].Dir? {
        return EISDIR;
      }
      disk := disk[p := expanded[s][p]];
      expanded := expanded[s := expanded[s] - {p}];
      return OK;
    }

    /** tar x of the archive's compressed store. */
    method ExpandDirectory(s: nat) returns (ok: bool)
      modifies `expanded
      ensures ok == (s in store)
      ensures expanded == if ok then old(expanded)[s := store[s]] else old(expanded)
    {
      ok := s in store;
      if ok {
        expanded := expanded[s := store[s]];
      }
    }

    /** What File::install finds for p in archive s, expanding the archive if need be. */
    function Source(s: nat, p: Path): Option<Node>
      reads `expanded, `store
    {
      if s in expanded then StoredCopy(expanded, s, p) else StoredCopy(store, s, p)
    }

    /** File::install: rename into place; if the file is not there, expand its archive and
        try again, which happens at most once. */
    method InstallData(s: nat, p: Path) returns (ok: bool, ghost tries: nat)
      requires p in disk ==> !disk[p].Dir?
      modifies `disk, `expanded
      ensures ok == (old(Source(s, p)).Some? && old(ParentsExist(p)))
      ensures disk == if ok then old(disk)[p := old(Source(s, p)).value] else old(disk)
      ensures ok ==> s in expanded
      ensures tries == if s !in old(expanded) && s in store then 2 else 1
      ensures forall t, q :: (t != s || q != p) ==> Source(t, q) == old(Source(t, q))
      ensures forall t :: t in expanded ==> t == s || t in old(expanded)
      decreases if s in expanded then 0 else 1
    {
      var e := Rename(s, p);
      tries := 1;
      match e {
        case OK =>
          ok := true;
        case ENOENT =>
          ok := false;
          if s !in expanded {
            var expandedNow := ExpandDirectory(s);
            if expandedNow {
              ghost var more;
              ok, more := InstallData(s, p);
              tries := tries + more;
            }
          }
        case EISDIR =>
          ok := false;
      }
    }

    /** Directory::install: make the directory, or take over the one that is there. */
    method InstallDirectory(p: Path, dir: Node) returns (ok: bool)
      requires dir.Dir? && (p in disk ==> disk[p].Dir?)
      modifies `disk
      ensures ok == (p in old(disk) || old(ParentsExist(p)))
      ensures disk == if ok then old(disk)[p := dir] else old(disk)
    {
      ok := p in disk || ParentsExist(p);
      if ok {
        disk := disk[p := Dir(dir.meta)];
      }
    }

    method InstallInfo(p: Path, wanted: Node) returns (ok: bool)
      modifies `disk
      ensures ok == (p in old(disk))
      ensures disk == if ok then old(disk)[p := SetInfo(old(disk)[p], wanted)] else old(disk)
    {
      ok := p in disk;
      if ok {
        disk := disk[p := SetInfo(disk[p], wanted)];
      }
    }

    /** unlink, or rmdir with its fallback of deleting the contents as well. */
    method Remove(p: Path)
      requires p in disk
      modifies `disk, `recursiveDeletes
      ensures disk == RemoveFrom(old(disk), p)
      ensures recursiveDeletes == old(recursiveDeletes) + if HasContents(old(disk), p) then 1 else 0
    {
      if !disk[p].Dir? {
        disk := disk - {p};
      } else if exists q :: q in disk && Ancestor(p, q) {
        recursiveDeletes := recursiveDeletes + 1;
        disk := map q | q in disk && q != p && !Ancestor(p, q) :: disk[q];
      } else {
        disk := disk - {p};
      }
    }

    // ----------------------------------------------------------- analyze

    /** The three-way diff, flag by flag. */
    static method AnalyzeFile(file: Node, actual: Option<Node>, row: Option<Row>) returns (v: Verdict)
      ensures v.conflict == Analyze(file, actual, row).conflict
      ensures !v.conflict ==> v == Analyze(file, actual, row)
    {
      var base, saved, install := false, false, false;
      var preceding := if row.Some? then row.value.node else None;
      if row.None? {
        base := true;
        if actual.Some? && !actual.value.Dir? {
          saved, install := true, true;
        }
        preceding := actual;
      }
      var actualFlags := Compare(Some(file), actual);
      var precedingFlags := Compare(actual, preceding);
      var state := '?';
      if actualFlags.Identical() && precedingFlags.Identical() {
        state := ' ';
      }
      if !actualFlags.Identical() {
        if actual.None? {
          state := 'A';
        } else if actualFlags.kind {
          return Verdict(true, install, base, saved, false);
        } else {
          state := 'U';
        }
        if actualFlags.kind || actualFlags.data {
          install := true;
          if (precedingFlags.kind || precedingFlags.data) && actual.Some? {
            saved := true;
          }
        }
      }
      if actualFlags.Identical() && !precedingFlags.Identical() {
        state := 'E';
      }
      v := Verdict(false, install, base, saved, (state != ' ' && !precedingFlags.Identical()) || base || saved);
    }

    /** Inserts the directories above p into the rollback archive, nearest first. */
    method SaveParents(stage: Disk, r: nat, p: Path)
      requires forall q :: Ancestor(q, p) ==> q in stage
      modifies `files
      ensures forall k :: RowAt(files, k) == WithParents(old(files), stage, r, p, 0, k)
    {
      var j := if |p| == 0 then 0 else |p| - 1;
      while j > 0
        invariant 0 <= j <= |p| && (|p| > 0 ==> j < |p|)
        invariant forall k :: RowAt(files, k) == WithParents(old(files), stage, r, p, j, k)
      {
        var parent := p[..j];
        assert Ancestor(parent, p);
        ghost var before := files;
        assert RowAt(files, Key(r, parent)) == WithParents(old(files), stage, r, p, j, Key(r, parent));
        if Key(r, parent) !in files {
          files := files[Key(r, parent) := Row(Some(stage[parent]), false, false, false)];
        }
        forall k
          ensures RowAt(files, k) == WithParents(old(files), stage, r, p, j - 1, k)
        {
          assert RowAt(before, k) == WithParents(old(files), stage, r, p, j, k);
          if k.arch == r && Ancestor(k.path, p) && |k.path| == j {
            assert k == Key(r, parent);
          }
        }
        j := j - 1;
      }
    }

    /** Records one staged file, and what it replaces, in the tables. */
    method RecordFile(stage: Disk, r: nat, p: Path, v: Verdict)
      requires p in stage && forall q :: Ancestor(q, p) ==> q in stage
      modifies `files
      ensures forall k :: RowAt(files, k) == WithFile(old(files), disk, stage, r, p, v, k)
    {
      if v.record && Key(r, p) !in files {
        files := files[Key(r, p) := Row(Get(disk, p), v.base, false, v.saved)];
      }
      ghost var own := files;
      if v.record && p in disk {
        SaveParents(stage, r, p);
      }
      ghost var parents := files;
      files := files[Key(r + 1, p) := Row(Some(stage[p]), false, v.install, false)];
      forall k
        ensures RowAt(files, k) == WithFile(old(files), disk, stage, r, p, v, k)
      {
        assert RowAt(parents, k) ==
          if v.record && p in disk then WithParents(own, stage, r, p, 0, k) else RowAt(own, k);
        assert !Ancestor(p, p);
        assert k != Key(r, p) ==> RowAt(own, k) == RowAt(old(files), k);
      }
    }

    /** One round of analyze_stage's loop. */
    method AnalyzeOne(stage: Disk, r: nat, p: Path, ghost st: State, ghost done: set<Path>)
      returns (res: int, recorded: bool)
      requires RowsKnown(st) && Extracted(stage) && p in stage && p !in done
      requires forall q :: q in stage && Ancestor(q, p) ==> q in done
      requires forall x :: x in done ==> !Ancestor(p, x)
      requires disk == st.disk && r == RollbackSerial(st) && Analyzed(files, st, stage, done)
      modifies `files
      ensures res == DEPOT_OK <==> !MentionsDepot(p) && !VerdictAt(st, stage, p).conflict
      ensures res ==
        if InDepot(p) then DEPOT_ERROR
        else if KindDiffers(stage[p], Get(st.disk, p)) then DEPOT_OBJ_CHANGE
        else DEPOT_OK
      ensures res == DEPOT_OK ==> Analyzed(files, st, stage, done + {p})
      ensures res == DEPOT_OK ==> recorded == VerdictAt(st, stage, p).record
    {
      recorded := false;
      MentionedIsInDepot(p);
      ConflictIsKind(stage[p], Get(st.disk, p), PrecedingRow(st.files, p, st.next));
      if MentionsDepot(p) {
        return DEPOT_ERROR, recorded;
      }
      PrecedingDuringAnalysis(st, stage, done, files, p);
      var v := AnalyzeFile(stage[p], Get(disk, p), PrecedingRow(files, p, r + 1));
      if v.conflict {
        return DEPOT_OBJ_CHANGE, recorded;
      }
      ghost var before := files;
      RecordFile(stage, r, p, v);
      RecordedRows(st, stage, done, before, files, p);
      return DEPOT_OK, v.record;
    }

    /** analyze_stage: diffs and records every staged file, unless one is refused. */
    method AnalyzeStage(stage: Disk, walk: seq<Path>, r: nat, ghost st: State)
      returns (res: int, rollbackFiles: nat)
      requires RowsKnown(st) && Extracted(stage) && IsWalk(walk, stage)
      requires disk == st.disk && files == st.files && r == RollbackSerial(st)
      modifies `files
      ensures res == DEPOT_OK <==> !Conflict(st, stage)
      ensures res == DEPOT_OK || res == DEPOT_ERROR || res == DEPOT_OBJ_CHANGE
      ensures res == DEPOT_OK ==> files == FilesAfter(st, stage, stage.Keys)
      ensures res == DEPOT_OK ==> (rollbackFiles > 0 <==> RollbackNeeded(st, stage))
    {
      rollbackFiles := 0;
      NothingAnalyzed(files, st, stage, walk);
      var i := 0;
      while i < |walk|
        invariant 0 <= i <= |walk|
        invariant AnalyzedPrefix(files, st, stage, walk, i, rollbackFiles)
      {
        var one, recorded := AnalyzeNext(stage, walk, i, r, rollbackFiles, st);
        if one != DEPOT_OK {
          return one, rollbackFiles;
        }
        rollbackFiles := rollbackFiles + if recorded then 1 else 0;
        i := i + 1;
      }
      AnalysisDone(files, st, stage, walk, rollbackFiles);
      res := DEPOT_OK;
    }

    method AnalyzeNext(stage: Disk, walk: seq<Path>, i: nat, r: nat, rollbackFiles: nat, ghost st: State)
      returns (res: int, recorded: bool)
      requires RowsKnown(st) && Extracted(stage) && IsWalk(walk, stage) && i < |walk|
      requires disk == st.disk && r == RollbackSerial(st)
      requires AnalyzedPrefix(files, st, stage, walk, i, rollbackFiles)
      modifies `files
      ensures res == DEPOT_OK || res == DEPOT_ERROR || res == DEPOT_OBJ_CHANGE
      ensures res != DEPOT_OK ==> Conflict(st, stage)
      ensures res == DEPOT_OK ==>
        AnalyzedPrefix(files, st, stage, walk, i + 1, rollbackFiles + if recorded then 1 else 0)
    {
      WalkOrder(walk, stage, i);
      res, recorded := AnalyzeOne(stage, r, walk[i], st, FirstOf(walk, i));
      if res == DEPOT_OK {
        PrefixGrows(files, st, stage, walk, i, rollbackFiles);
      }
    }

    // ----------------------------------------------------------- install

    /** Deletes an archive with its rows. */
    method RemoveArchive(a: nat)
      modifies `files, `archives
      ensures files == map k | k in old(files) && k.arch != a :: old(files)[k]
      ensures archives == old(archives) - {a}
    {
      files := map k | k in files && k.arch != a :: files[k];
      archives := archives - {a};
    }

    method SetArchiveActive(a: nat, active: bool)
      modifies `archives
      ensures archives ==
        if a in old(archives) then old(archives)[a := old(archives)[a].(active := active)] else old(archives)
    {
      if a in archives {
        archives := archives[a := archives[a].(active := active)];
      }
    }

    /** tar c of an expanded store. */
    method CompactDirectory(a: nat)
      requires a in expanded
      modifies `store
      ensures store == old(store)[a := expanded[a]]
    {
      store := store[a := expanded[a]];
    }

    /** backup_file for the rows of the rollback archive that need their data saved. */
    method CopyFiles(r: nat, ghost saved: map<Path, Node>) returns (copies: map<Path, Node>, modified: nat)
      requires SavedRows(files, disk, r, saved)
      ensures copies == saved && (modified > 0 <==> saved != map[])
    {
      var list := GetFiles(r, false);
      copies, modified := map[], 0;
      for i := 0 to |list|
        invariant copies == Part(saved, list, i) && (modified > 0 <==> copies != map[])
      {
        assert list[i] in list;
        PartGrows(saved, list, i);
        if files[Key(r, list[i])].saved {
          copies, modified := copies[list[i] := disk[list[i]]], modified + 1;
          assert list[i] in copies;
        }
      }
      PartWhole(saved, list);
    }

    /** The rollback archive's directory receives the copies. */
    method BackupFiles(r: nat, ghost saved: map<Path, Node>) returns (modified: nat)
      requires r in expanded && expanded[r] == map[] && SavedRows(files, disk, r, saved)
      modifies `expanded
      ensures expanded == old(expanded)[r := saved]
      ensures modified > 0 <==> saved != map[]
    {
      var copies;
      copies, modified := CopyFiles(r, saved);
      expanded := expanded[r := copies];
    }

    /** install_file */
    method InstallFile(a: nat, p: Path, row: Row) returns (ok: bool)
      requires row.node.Some?
      requires p in disk ==> SameKind(disk[p], row.node.value)
      requires row.install || p in disk
      requires ParentsExist(p) && (row.install && IsData(row.node) ==> Source(a, p) == row.node)
      modifies `disk, `expanded
      ensures ok && disk == old(disk)[p := Placed(row.node.value, Get(old(disk), p), row.install)]
      ensures forall t, q :: (t != a || q != p) ==> Source(t, q) == old(Source(t, q))
      ensures forall t :: t in expanded ==> t == a || t in old(expanded)
    {
      if row.install {
        if row.node.value.Dir? {
          ok := InstallDirectory(p, row.node.value);
        } else {
          ghost var tries;
          ok, tries := InstallData(a, p);
        }
      } else {
        ok := InstallInfo(p, row.node.value);
      }
    }

    /** One round of the loop that puts the staged files in place. */
    method PlaceNext(list: seq<Path>, i: nat, a: nat, ghost plan: Disk, ghost before: Disk)
      requires Planned(files, a, plan, before) && InPathOrder(list, plan) && i < |list| && list[i] in plan
      requires disk == before + Part(plan, list, i)
      requires Source(a, list[i]) == files[Key(a, list[i])].node
      modifies `disk, `expanded
      ensures disk == before + Part(plan, list, i + 1)
      ensures forall t, q :: (t != a || q != list[i]) ==> Source(t, q) == old(Source(t, q))
      ensures forall t :: t in expanded ==> t == a || t in old(expanded)
    {
      PlacingOrder(list, plan, i);
      PlacingReady(before, plan, list, i);
      PartGrows(plan, list, i);
      UpdateLast(before, Part(plan, list, i), list[i], plan[list[i]]);
      assert PlannedRow(files[Key(a, list[i])], Get(before, list[i]), plan[list[i]]);
      var ok := InstallFile(a, list[i], files[Key(a, list[i])]);
    }

    /** The files from number i on are still in the expanded store. */
    ghost predicate StillStaged(a: nat, list: seq<Path>, i: nat)
      reads this
    {
      forall j :: i <= j < |list| ==> Key(a, list[j]) in files && Source(a, list[j]) == files[Key(a, list[j])].node
    }

    method PlaceFirst(list: seq<Path>, n: nat, a: nat, ghost plan: Disk)
      requires Planned(files, a, plan, disk) && InPathOrder(list, plan) && n <= |list|
      requires StillStaged(a, list, 0)
      modifies `disk, `expanded
      ensures disk == old(disk) + Part(plan, list, n)
      ensures forall t :: t in expanded ==> t == a || t in old(expanded)
    {
      var i := 0;
      while i < n
        invariant 0 <= i <= n
        invariant disk == old(disk) + Part(plan, list, i)
        invariant StillStaged(a, list, i)
        invariant forall t :: t in expanded ==> t == a || t in old(expanded)
      {
        assert list[i] in plan;
        PlaceNext(list, i, a, plan, old(disk));
        i := i + 1;
      }
    }

    /** The loop that puts the files of archive a in place, all of them or the first few. */
    method PlaceFiles(a: nat, ghost plan: Disk, stop: Option<nat>) returns (list: seq<Path>, n: nat)
      requires Planned(files, a, plan, disk)
      requires forall p :: p in plan ==> Source(a, p) == files[Key(a, p)].node
      modifies `disk, `expanded
      ensures InPathOrder(list, plan) && n == UpTo(list, stop)
      ensures disk == old(disk) + Part(plan, list, n)
      ensures forall t :: t in expanded ==> t == a || t in old(expanded)
    {
      list := GetFiles(a, false);
      n := UpTo(list, stop);
      forall j | 0 <= j < |list|
        ensures Key(a, list[j]) in files && list[j] in plan
      {
        assert list[j] in list;
      }
      PlaceFirst(list, n, a, plan);
    }

    /** A rollback archive that received no rows goes again. */
    method DropUnusedRollback(r: nat, rollbackFiles: nat)
      requires rollbackFiles == 0 ==> forall k :: k in files ==> k.arch != r
      modifies `files, `archives
      ensures files == old(files)
      ensures archives == if rollbackFiles == 0 then old(archives) - {r} else old(archives)
    {
      if rollbackFiles == 0 {
        RemoveArchive(r);
      }
    }

    /** The root is extracted into its directory, and the directory of its rollback archive is empty. */
    predicate InPlace(stage: Disk, r: nat, a: nat)
      reads `expanded
    {
      a in expanded && expanded[a] == stage && r in expanded && expanded[r] == map[]
    }

    /** Opens the transaction, inserts the rollback archive and the new one, and extracts the root. */
    method InsertArchives(stage: Disk) returns (r: nat, a: nat)
      requires transaction.None?
      modifies `archives, `next, `expanded, `transaction
      ensures r == old(next) && a == r + 1 && next == old(next) + 2
      ensures archives == old(archives)[r := ArchiveRow(true, false)][a := ArchiveRow(false, false)]
      ensures InPlace(stage, r, a)
      ensures transaction == Some(Snapshot(files, old(archives), old(next)))
    {
      BeginTransaction();
      r, a := next, next + 1;
      archives := archives[r := ArchiveRow(true, false)][a := ArchiveRow(false, false)];
      next := next + 2;
      expanded := expanded[a := stage][r := map[]];
    }

    method AbandonStage(r: nat, a: nat)
      requires transaction.Some?
      modifies `files, `archives, `next, `expanded, `transaction
      ensures Snapshot(files, archives, next) == old(transaction.value) && transaction.None?
      ensures a !in expanded && r !in expanded
    {
      expanded := expanded - {a, r};
      RollbackTransaction();
    }

    method CommitStage(stage: Disk, r: nat, rollbackFiles: nat, ghost st: State)
      requires RowsKnown(st) && r == RollbackSerial(st)
      requires rollbackFiles > 0 <==> RollbackNeeded(st, stage)
      requires files == FilesAfter(st, stage, stage.Keys)
      requires archives == st.archives[r := ArchiveRow(true, false)][r + 1 := ArchiveRow(false, false)]
      modifies `files, `archives, `transaction
      ensures files == old(files) && archives == InstallArchives(st, stage, false) && transaction.None?
    {
      AnalyzedArchives(st, stage, rollbackFiles);
      DropUnusedRollback(r, rollbackFiles);
      CommitTransaction();
    }

    /** The transaction that inserts the archives and the rows of all files, or nothing. */
    method RecordStage(stage: Disk, walk: seq<Path>, ghost st: State) returns (res: int)
      requires RowsKnown(st) && View() == st && Idle() && Extracted(stage) && IsWalk(walk, stage)
      modifies `files, `archives, `next, `expanded, `transaction
      ensures transaction.None?
      ensures res == if Conflict(st, stage) then DEPOT_PREINSTALL_ERR else DEPOT_OK
      ensures if res == DEPOT_OK then Recorded(st, stage, files, archives, next)
              else files == st.files && archives == st.archives && next == st.next
      ensures res == DEPOT_OK ==> InPlace(stage, RollbackSerial(st), ArchiveSerial(st))
    {
      var r, a := InsertArchives(stage);
      var analyzed, rollbackFiles := AnalyzeStage(stage, walk, r, st);
      if analyzed == DEPOT_OK {
        CommitStage(stage, r, rollbackFiles, st);
        res := DEPOT_OK;
      } else {
        AbandonStage(r, a);
        res := DEPOT_PREINSTALL_ERR;
      }
    }

    /** Compresses the staged files and the copies of what they will replace. */
    method BackUp(stage: Disk, r: nat, a: nat, ghost saved: map<Path, Node>)
      requires InPlace(stage, r, a) && r != a
      requires SavedRows(files, disk, r, saved)
      modifies `store, `expanded
      ensures store == if saved != map[] then old(store)[a := stage][r := saved] else old(store)[a := stage]
      ensures expanded == old(expanded)[r := saved]
    {
      CompactDirectory(a);
      var modified := BackupFiles(r, saved);
      if modified > 0 {
        CompactDirectory(r);
      }
    }

    /** Compresses and copies what the committed rows say. */
    method BackUpRecorded(stage: Disk, r: nat, a: nat, ghost st: State)
      requires RowsKnown(st) && !Conflict(st, stage) && r == RollbackSerial(st) && a == ArchiveSerial(st)
      requires files == FilesAfter(st, stage, stage.Keys) && disk == st.disk && store == st.store
      requires InPlace(stage, r, a)
      modifies `store, `expanded
      ensures store == BackedUpStore(st, stage)
      ensures a in expanded && expanded[a] == stage
    {
      CommittedSaved(st, stage, files);
      BackUp(stage, r, a, Saved(st, stage));
    }

    /** Places what the committed rows say, all of it or the first files. */
    method PlaceRecorded(stage: Disk, a: nat, stop: Option<nat>, ghost st: State) returns (list: seq<Path>, n: nat)
      requires RowsKnown(st) && TreeClosed(st.disk) && Extracted(stage) && !Conflict(st, stage)
      requires a == ArchiveSerial(st) && files == FilesAfter(st, stage, stage.Keys) && disk == st.disk
      requires a in expanded && expanded[a] == stage
      modifies `disk, `expanded
      ensures InPathOrder(list, stage) && n == UpTo(list, stop)
      ensures disk == st.disk + Part(PlanOf(st, stage), list, n)
    {
      CommittedPlan(st, stage, files);
      list, n := PlaceFiles(a, PlanOf(st, stage), stop);
    }

    /** The transaction that marks both archives active; then their expanded stores go. */
    method Activate(r: nat, a: nat)
      requires transaction.None?
      modifies `archives, `expanded, `transaction
      ensures archives == Activated(Activated(old(archives), r), a)
      ensures a !in expanded && r !in expanded && transaction.None?
    {
      BeginTransaction();
      SetArchiveActive(r, true);
      SetArchiveActive(a, true);
      CommitTransaction();
      expanded := expanded - {a, r};
    }

    /** The install from the committed rows on. */
    method FinishUntil(stage: Disk, r: nat, a: nat, stop: Option<nat>, ghost st: State)
      returns (list: seq<Path>, n: nat)
      requires RowsKnown(st) && TreeClosed(st.disk) && Extracted(stage) && !Conflict(st, stage)
      requires r == RollbackSerial(st) && a == ArchiveSerial(st)
      requires disk == st.disk && store == st.store && Recorded(st, stage, files, archives, next)
      requires InPlace(stage, r, a)
      modifies `disk, `store, `expanded
      ensures InPathOrder(list, stage) && n == UpTo(list, stop)
      ensures View() == PartialInstall(st, stage, FirstOf(list, n), false)
    {
      BackUpRecorded(stage, r, a, st);
      list, n := PlaceRecorded(stage, a, stop, st);
      InstallInParts(st, stage, list, n, false);
    }

    /** An install as far as it gets: refused, or stopped before activating the archive, after
        all files or the first few.  What it leaves is a PartialInstall. */
    method InstallUntil(stage: Disk, walk: seq<Path>, stop: Option<nat>) returns (res: int, list: seq<Path>, n: nat)
      requires RowsKnown(View()) && TreeClosed(disk) && Idle() && Extracted(stage) && IsWalk(walk, stage)
      modifies `disk, `files, `archives, `next, `store, `expanded, `transaction
      ensures res == if Conflict(old(View()), stage) then DEPOT_PREINSTALL_ERR else DEPOT_OK
      ensures res != DEPOT_OK ==> View() == old(View())
      ensures res == DEPOT_OK ==>
        && InPathOrder(list, stage) && n == UpTo(list, stop)
        && (if stop.Some? && stop.value < |list| then n == stop.value else n == |list|)
        && View() == PartialInstall(old(View()), stage, FirstOf(list, n), false)
        && NewArchives(archives, old(next), false)
      ensures Idle()
    {
      ghost var st := View();
      var r, a := next, next + 1;
      res := RecordStage(stage, walk, st);
      list, n := [], 0;
      if res == DEPOT_OK {
        ArchivesInserted(st, stage, false);
        list, n := FinishUntil(stage, r, a, stop, st);
      }
    }

    /** The end of an install: all files are in place, and the archives become active. */
    method FinishInstall(stage: Disk, list: seq<Path>, ghost st: State)
      requires RowsKnown(st) && transaction.None? && InPathOrder(list, stage)
      requires View() == PartialInstall(st, stage, FirstOf(list, |list|), false)
      modifies `archives, `expanded, `transaction
      ensures View() == PartialInstall(st, stage, stage.Keys, true) && transaction.None?
      ensures RollbackSerial(st) !in expanded && ArchiveSerial(st) !in expanded
    {
      AllPlanned(list, stage);
      ActivatedArchives(st, stage);
      Activate(next - 2, next - 1);
    }

    /** install: DepotModel.Install, whatever the depot and the system look like. */
    method Install(stage: Disk, walk: seq<Path>) returns (res: int)
      requires RowsKnown(View()) && TreeClosed(disk) && Idle() && Extracted(stage) && IsWalk(walk, stage)
      modifies `disk, `files, `archives, `next, `store, `expanded, `transaction
      ensures View() == DepotModel.Install(old(View()), stage) && Idle()
      ensures res == if Conflict(old(View()), stage) then DEPOT_PREINSTALL_ERR else DEPOT_OK
      ensures res == DEPOT_OK ==> old(next) !in expanded && old(next) + 1 !in expanded
      ensures res == DEPOT_OK <==>
        forall p :: p in stage ==> !InDepot(p) && !KindDiffers(stage[p], Get(old(disk), p))
      ensures res == DEPOT_OK ==> NewArchives(archives, old(next), true)
    {
      ghost var st := View();
      RefusedExactly(st, stage);
      assert forall p :: p in stage ==>
        (Refusable(st, stage, p) <==> InDepot(p) || KindDiffers(stage[p], Get(st.disk, p)));
      var list, n;
      res, list, n := InstallUntil(stage, walk, None);
      if res == DEPOT_OK {
        FinishInstall(stage, list, st);
        ArchivesInserted(st, stage, true);
      }
    }

    // ----------------------------------------------------------- uninstall

    /** uninstall_file, as far as putting back the preceding version goes. */
    method PutBack(p: Path, row: Row, s: nat, pre: Row) returns (res: int)
      requires p in disk && ParentsExist(p) && row.node == Some(disk[p])
      requires pre.node.Some? ==> SameKind(disk[p], pre.node.value)
      modifies `disk, `expanded, `recursiveDeletes
      ensures disk == match pre.node
                      case None => RemoveFrom(old(disk), p)
                      case Some(n) => old(disk)[p := Restore(old(disk)[p], n, old(Source(s, p)))]
      ensures res == if NeedsCopy(row.node, pre.node) && old(Source(s, p)).None? then DEPOT_ERROR else DEPOT_OK
      ensures recursiveDeletes ==
        old(recursiveDeletes) + if pre.node.None? && HasContents(old(disk), p) then 1 else 0
      ensures forall t, q :: q != p ==> Source(t, q) == old(Source(t, q))
    {
      var ok := true;
      if pre.node.None? {
        Remove(p);
      } else {
        var flags := Compare(row.node, pre.node);
        if flags.data {
          // A root never changes the kind of what it replaces, so this is not a directory.
          ghost var tries;
          ok, tries := InstallData(s, p);
        } else if flags.mode || flags.gid || flags.uid {
          ok := InstallInfo(p, pre.node.value);
        }
      }
      res := if ok then DEPOT_OK else DEPOT_ERROR;
    }

    /** uninstall_file */
    method UninstallFile(a: nat, p: Path, toRemove: SerialSet<Key>) returns (res: int)
      requires RowsKnown(View()) && Key(a, p) in files && toRemove.Valid()
      requires p in disk ==> ParentsExist(p)
      requires Preceding(files, p, a).Some? && SameKindBelow(files, a, p)
      modifies `disk, `expanded, `recursiveDeletes, toRemove, toRemove.values
      ensures disk == Apply(old(disk), p, old(Change(a, p)))
      ensures res == if old(Fails(a, p)) then DEPOT_ERROR else DEPOT_OK
      ensures recursiveDeletes ==
        old(recursiveDeletes) + if old(Change(a, p)).Drop? && HasContents(old(disk), p) then 1 else 0
      ensures toRemove.Valid()
      ensures toRemove.Contents() ==
        old(toRemove.Contents()) + if res == DEPOT_OK then DiscardedAt(old(View()), a, p) else {}
      ensures toRemove.values == old(toRemove.values) || fresh(toRemove.values)
      ensures forall t, q :: q != p ==> Source(t, q) == old(Source(t, q))
    {
      res := DEPOT_OK;
      var row := files[Key(a, p)];
      if row.base {
        return;
      }
      var actual := Get(disk, p);
      CompareIdentical(row.node, actual);
      if actual.None? || !Compare(row.node, actual).Identical() {
        return;
      }
      var superseded := FileSupersededBy(p, a);
      if !superseded {
        var s := Preceding(files, p, a).value;
        var pre := files[Key(s, p)];
        res := PutBack(p, row, s, pre);
        if (pre.node.None? || pre.saved) && !pre.base && res == DEPOT_OK {
          toRemove.Add(Key(s, p));
        }
      }
    }

    /** What uninstall_file will do at p. */
    ghost function Change(a: nat, p: Path): FileChange
      reads this
    {
      if !Current(View(), a, p) || Preceding(files, p, a).None? then Keep
      else
        var s := Preceding(files, p, a).value;
        ChangeTo(disk[p], files[Key(s, p)].node, Source(s, p))
    }

    /** uninstall_file will find no copy of the version below. */
    ghost predicate Fails(a: nat, p: Path)
      reads this
    {
      && Current(View(), a, p)
      && Preceding(files, p, a).Some?
      && var s := Preceding(files, p, a).value;
        NeedsCopy(Some(disk[p]), files[Key(s, p)].node) && Source(s, p).None?
    }

    /** The state of the uninstall loop before its i-th file. */
    ghost predicate UninstalledUpTo(a: nat, list: seq<Path>, i: nat, toRemove: SerialSet<Key>, st: State, deletes: nat)
      reads this, toRemove, toRemove.values
      requires i <= |list|
    {
      && disk == UninstallDisk(st, a, FirstOf(list, i))
      && files == st.files && store == st.store && next == st.next && archives.Keys == st.archives.Keys
      && (forall j, t :: i <= j < |list| ==> Source(t, list[j]) == StoredCopy(st.store, t, list[j]))
      && toRemove.Valid() && toRemove.Contents() == DiscardedIn(st, a, FirstOf(list, i))
      && recursiveDeletes >= deletes
      && (recursiveDeletes > deletes <==> FallbackIn(st, a, FirstOf(list, i)))
    }

    /** One round of the loop that uninstalls the files of archive a. */
    method UninstallNext(a: nat, list: seq<Path>, i: nat, toRemove: SerialSet<Key>, ghost st: State, ghost deletes: nat)
      returns (res: int)
      requires Valid(st) && Installed(st, a) && ReverseOrder(list, st.files, a) && i < |list|
      requires UninstalledUpTo(a, list, i, toRemove, st, deletes)
      modifies `disk, `expanded, `recursiveDeletes, toRemove, toRemove.values
      ensures UninstalledUpTo(a, list, i + 1, toRemove, st, deletes)
      ensures res == if LacksBytes(st, a, list[i]) then DEPOT_ERROR else DEPOT_OK
      ensures toRemove.values == old(toRemove.values) || fresh(toRemove.values)
    {
      UninstallStep(st, a, list, i);
      FallbackOneMore(st, a, list, i);
      FailingDiscardsNothing(st, a, list[i]);
      SameChange(st, a, list[i], View());
      res := UninstallFile(a, list[i], toRemove);
    }

    lemma NothingDoneYet(a: nat, list: seq<Path>, toRemove: SerialSet<Key>, st: State)
      requires disk == st.disk && files == st.files && store == st.store && expanded == map[]
      requires next == st.next && archives.Keys == st.archives.Keys
      requires toRemove.Valid() && toRemove.Contents() == {}
      ensures UninstalledUpTo(a, list, 0, toRemove, st, recursiveDeletes)
    {
      NothingUninstalled(st, a);
    }

    /** The loop over the files of archive a, or over the first few of them. */
    method UninstallFirst(a: nat, list: seq<Path>, n: nat, toRemove: SerialSet<Key>, ghost st: State,
                          ghost deletes: nat)
      returns (res: int)
      requires Valid(st) && Held(st, a) && ReverseOrder(list, st.files, a) && n <= |list|
      requires UninstalledUpTo(a, list, 0, toRemove, st, deletes)
      modifies `disk, `expanded, `recursiveDeletes, toRemove, toRemove.values
      ensures UninstalledUpTo(a, list, n, toRemove, st, deletes)
      ensures res == if n > 0 && LacksBytes(st, a, list[n - 1]) then DEPOT_ERROR else DEPOT_OK
    {
      res := DEPOT_OK;
      var i := 0;
      while i < n
        invariant 0 <= i <= n
        invariant UninstalledUpTo(a, list, i, toRemove, st, deletes)
        invariant res == if i > 0 && LacksBytes(st, a, list[i - 1]) then DEPOT_ERROR else DEPOT_OK
        invariant toRemove.values == old(toRemove.values) || fresh(toRemove.values)
      {
        assert Key(a, list[i]) in st.files;
        res := UninstallNext(a, list, i, toRemove, st, deletes);
        i := i + 1;
      }
    }

    /** iterate_files with uninstall_file: children before their directories, up to some file or
        the last.  The outcome is that of the last file. */
    method UninstallFiles(a: nat, toRemove: SerialSet<Key>, stop: Option<nat>, ghost st: State)
      returns (res: int, list: seq<Path>, n: nat)
      requires Valid(st) && Held(st, a)
      requires disk == st.disk && files == st.files && store == st.store && expanded == map[]
      requires next == st.next && archives.Keys == st.archives.Keys
      requires toRemove.Valid() && toRemove.Contents() == {}
      modifies `disk, `expanded, `recursiveDeletes, toRemove, toRemove.values
      ensures ReverseOrder(list, st.files, a) && n == UpTo(list, stop)
      ensures UninstalledUpTo(a, list, n, toRemove, st, old(recursiveDeletes))
      ensures res == if n > 0 && LacksBytes(st, a, list[n - 1]) then DEPOT_ERROR else DEPOT_OK
    {
      list := GetFiles(a, true);
      n := UpTo(list, stop);
      NothingDoneYet(a, list, toRemove, st);
      res := UninstallFirst(a, list, n, toRemove, st, recursiveDeletes);
    }

    /** delete_file for every row collected. */
    method DeleteRows(toRemove: SerialSet<Key>)
      requires toRemove.Valid()
      modifies `files
      ensures files == old(files) - toRemove.Contents()
    {
      var i := 0;
      while i < toRemove.count
        invariant 0 <= i <= toRemove.count
        invariant files == old(files) - set j | 0 <= j < i :: toRemove.values[j]
      {
        files := files - {toRemove.values[i]};
        i := i + 1;
      }
    }

    /** delete_empty_archives, then the compressed store goes, if it is there. */
    method PruneArchive(a: nat) returns (ok: bool)
      modifies `archives, `store
      ensures archives == NonEmpty(old(archives), files)
      ensures forall s :: s in archives <==> s in old(archives) && exists k :: k in files && k.arch == s
      ensures forall s :: s in archives ==> archives[s] == old(archives)[s]
      ensures store == old(store) - {a}
      ensures ok == (a in old(store))
    {
      archives := map s | s in archives && (exists k :: k in files && k.arch == s) :: archives[s];
      ok := a in store;
      store := store - {a};
    }

    /** Deletes the rows collected and the archive, and prunes what that leaves unused. */
    method Forget(a: nat, toRemove: SerialSet<Key>) returns (ok: bool)
      requires toRemove.Valid() && transaction.None?
      modifies `files, `archives, `store, `expanded, `transaction
      ensures files == map k | k in old(files) - toRemove.Contents() && k.arch != a :: old(files)[k]
      ensures archives == NonEmpty(old(archives) - {a}, files)
      ensures store == old(store) - {a} && expanded == map[] && Idle()
      ensures ok == (a in old(store))
    {
      BeginTransaction();
      DeleteRows(toRemove);
      CommitTransaction();
      BeginTransaction();
      RemoveArchive(a);
      CommitTransaction();
      expanded := map[];
      ok := PruneArchive(a);
    }

    method Deactivate(a: nat)
      requires transaction.None?
      modifies `archives, `transaction
      ensures archives == Deactivated(old(archives), a) && transaction.None?
      ensures a in old(archives) ==> archives == old(archives)[a := ArchiveRow(old(archives)[a].rollback, false)]
    {
      BeginTransaction();
      SetArchiveActive(a, false);
      CommitTransaction();
    }

    /** What uninstall does once the archive is found, up to some file or the last: leftovers of
        a stopped run go, the archive is deactivated, its files are put back. */
    method PutFilesBack(a: nat, toRemove: SerialSet<Key>, stop: Option<nat>, ghost st: State)
      returns (res: int, list: seq<Path>, n: nat)
      requires Valid(st) && View() == st && Idle() && Held(st, a)
      requires toRemove.Valid() && toRemove.Contents() == {}
      modifies `disk, `expanded, `recursiveDeletes, `archives, `transaction, toRemove, toRemove.values
      ensures ReverseOrder(list, st.files, a) && n == UpTo(list, stop)
      ensures View() == PartialUninstall(st, a, FirstOf(list, n)) && Idle()
      ensures res == if n > 0 && LacksBytes(st, a, list[n - 1]) then DEPOT_ERROR else DEPOT_OK
      ensures toRemove.Valid() && toRemove.Contents() == DiscardedIn(st, a, FirstOf(list, n))
      ensures recursiveDeletes > old(recursiveDeletes) <==> FallbackIn(st, a, FirstOf(list, n))
    {
      expanded := map[];
      Deactivate(a);
      res, list, n := UninstallFiles(a, toRemove, stop, st);
    }

    /** And up to the last file. */
    method PutAllFilesBack(a: nat, toRemove: SerialSet<Key>, ghost st: State) returns (res: int)
      requires Valid(st) && View() == st && Idle() && Held(st, a)
      requires toRemove.Valid() && toRemove.Contents() == {}
      modifies `disk, `expanded, `recursiveDeletes, `archives, `transaction, toRemove, toRemove.values
      ensures View() == LeftInactive(st, a) && Idle()
      ensures res == if UninstallFails(st, a) then DEPOT_ERROR else DEPOT_OK
      ensures toRemove.Valid() && toRemove.Contents() == DiscardedIn(st, a, PathsOf(st.files, a))
      ensures recursiveDeletes > old(recursiveDeletes) <==> FallbackFires(st, a)
    {
      var list, n;
      res, list, n := PutFilesBack(a, toRemove, None, st);
      assert n == |list|;
      AllDone(st, a, list, res);
    }

    static lemma AllDone(st: State, a: nat, list: seq<Path>, res: int)
      requires ReverseOrder(list, st.files, a)
      requires res == if |list| > 0 && LacksBytes(st, a, list[|list| - 1]) then DEPOT_ERROR else DEPOT_OK
      ensures res == if UninstallFails(st, a) then DEPOT_ERROR else DEPOT_OK
      ensures FirstOf(list, |list|) == PathsOf(st.files, a)
      ensures FallbackIn(st, a, FirstOf(list, |list|)) <==> FallbackFires(st, a)
    {
      AllUninstalled(st, a, list);
      LastDecides(st, a, list);
    }

    /** The rest of uninstall, once the files are back. */
    method ForgetArchive(a: nat, toRemove: SerialSet<Key>, ghost st: State) returns (res: int)
      requires Valid(st) && Held(st, a) && View() == LeftInactive(st, a) && Idle()
      requires toRemove.Valid() && toRemove.Contents() == DiscardedIn(st, a, PathsOf(st.files, a))
      modifies `files, `archives, `store, `expanded, `transaction
      ensures View() == Uninstalled(st, a) && Idle() && expanded == map[]
      ensures res == if a in st.store then DEPOT_OK else DEPOT_ERROR
    {
      var ok := Forget(a, toRemove);
      res := if ok then DEPOT_OK else DEPOT_ERROR;
      UninstallInParts(st, a, View());
    }

    /** uninstall, given the archive: DepotModel.UninstallHeld. */
    method UninstallArchive(a: nat) returns (res: int)
      requires Valid(View()) && Idle() && Held(View(), a)
      modifies this
      ensures View() == UninstallHeld(old(View()), a) && Idle()
      ensures res == if !UninstallFails(old(View()), a) && a in old(store) then DEPOT_OK else DEPOT_ERROR
      ensures res == DEPOT_OK ==> expanded == map[]
      ensures recursiveDeletes > old(recursiveDeletes) <==> FallbackFires(old(View()), a)
    {
      ghost var st := View();
      var toRemove := new SerialSet<Key>();
      res := PutAllFilesBack(a, toRemove, st);
      if res == DEPOT_OK {
        res := ForgetArchive(a, toRemove, st);
      }
    }

    /** An uninstall that stops between two files. */
    method UninstallUntil(a: nat, stop: nat) returns (list: seq<Path>, n: nat)
      requires Valid(View()) && Idle() && Installed(View(), a)
      modifies this
      ensures ReverseOrder(list, old(files), a) && n == if stop < |list| then stop else |list|
      ensures View() == PartialUninstall(old(View()), a, FirstOf(list, n)) && Idle()
      ensures archives == old(archives)[a := ArchiveRow(false, false)]
    {
      var toRemove := new SerialSet<Key>();
      var res;
      res, list, n := PutFilesBack(a, toRemove, Some(stop), View());
    }

    static lemma OthersLeft(st: State, a: nat)
      requires Installed(st, a) && !UninstallFails(st, a)
      ensures var after := DepotModel.Uninstall(st, a);
        && (forall s :: s in after.archives <==> s in st.archives && s != a && HasRows(after.files, s))
        && forall s :: s in after.archives ==> after.archives[s] == st.archives[s]
    {
      forall s: nat
        ensures s in DepotModel.Uninstall(st, a).archives <==>
          s in st.archives && s != a && HasRows(DepotModel.Uninstall(st, a).files, s)
        ensures s in DepotModel.Uninstall(st, a).archives ==>
          DepotModel.Uninstall(st, a).archives[s] == st.archives[s]
      {
        ArchivesLeft(st, a, s);
      }
    }

    static lemma OthersKept(st: State, a: nat)
      requires Installed(st, a) && UninstallFails(st, a)
      ensures DepotModel.Uninstall(st, a).archives == st.archives[a := ArchiveRow(false, false)]
    {
    }

    /** uninstall: DepotModel.Uninstall, whatever the depot and the system look like. */
    method Uninstall(a: nat) returns (res: int)
      requires Valid(View()) && Idle()
      modifies this
      ensures View() == DepotModel.Uninstall(old(View()), a) && Idle()
      ensures res == if Installed(old(View()), a) && !UninstallFails(old(View()), a) then DEPOT_OK else DEPOT_ERROR
      ensures res == DEPOT_OK ==>
        && (forall s :: s in archives <==> s in old(archives) && s != a && HasRows(files, s))
        && forall s :: s in archives ==> archives[s] == old(archives)[s]
      ensures res != DEPOT_OK ==>
        archives == if Installed(old(View()), a) then old(archives)[a := ArchiveRow(false, false)] else old(archives)
      ensures res == DEPOT_OK ==> expanded == map[]
      ensures recursiveDeletes > old(recursiveDeletes) <==>
        Installed(old(View()), a) && FallbackFires(old(View()), a)
    {
      if a !in archives || archives[a].rollback {
        return DEPOT_ERROR;
      }
      ghost var st := View();
      assert Installed(st, a);
      res := UninstallArchive(a);
      if res == DEPOT_OK {
        OthersLeft(st, a);
      } else {
        OthersKept(st, a);
      }
    }

    // ----------------------------------------------------------- superseded archives

    /** One file of is_superseded's loop: superseded by a root, or changed on disk. */
    method FileOutOfUse(a: nat, p: Path) returns (out: bool)
      requires RowsKnown(View()) && Key(a, p) in files && files[Key(a, p)].node.Some?
      ensures out == OutOfUse(View(), Key(a, p))
    {
      out := FileSupersededBy(p, a);
      if !out {
        var actual := Get(disk, p);
        CompareIdentical(files[Key(a, p)].node, actual);
        out := actual.None? || !Compare(files[Key(a, p)].node, actual).Identical();
      }
    }

    /** is_superseded */
    method CheckSuperseded(a: nat) returns (superseded: bool)
      requires RowsKnown(View()) && RowShape(View()) && Installed(View(), a)
      ensures superseded == IsSuperseded(View(), a)
    {
      var list := GetFiles(a, false);
      superseded := true;
      var i := 0;
      while i < |list| && superseded
        invariant 0 <= i <= |list|
        invariant superseded ==> forall j :: 0 <= j < i ==> OutOfUseAt(View(), a, list[j])
        invariant !superseded ==> exists p :: Key(a, p) in files && !OutOfUseAt(View(), a, p)
      {
        assert list[i] in list && ShapeOk(false, files[Key(a, list[i])]);
        superseded := FileOutOfUse(a, list[i]);
        i := i + 1;
      }
      if superseded {
        forall k | k in files && k.arch == a
          ensures OutOfUse(View(), k)
        {
          assert Key(a, k.path) == k && k.path in list;
        }
      }
    }

    /** get_superseded_archives: newest first, rollbacks left out. */
    method GetSupersededArchives() returns (list: seq<nat>)
      requires Tables(View())
      ensures forall a :: a in list <==> Installed(View(), a) && IsSuperseded(View(), a)
      ensures forall i, j :: 0 <= i < j < |list| ==> list[i] > list[j]
    {
      list := [];
      var s := next;
      while s > 0
        invariant 0 <= s <= next
        invariant forall a :: a in list <==> s <= a && Installed(View(), a) && IsSuperseded(View(), a)
        invariant forall i, j :: 0 <= i < j < |list| ==> list[i] > list[j]
        invariant forall i :: 0 <= i < |list| ==> list[i] >= s
      {
        s := s - 1;
        if s in archives && !archives[s].rollback {
          var superseded := CheckSuperseded(s);
          if superseded {
            list := list + [s];
          }
        }
      }
    }

    /** "uninstall superseded", with the archives looked up before the first one goes: with no
        edits in between, the system does not notice, and nothing of them is left. */
    method UninstallSuperseded(ghost base: Disk) returns (list: seq<nat>)
      requires Undisturbed(View(), base) && Idle()
      modifies this
      ensures disk == old(disk)
      ensures Undisturbed(View(), base) && Idle()
      ensures forall a :: a in list <==> Installed(old(View()), a) && IsSuperseded(old(View()), a)
      ensures View() == UninstallAll(old(View()), list)
      ensures forall a :: a in list ==> Gone(View(), a)
    {
      list := GetSupersededArchives();
      ghost var st := View();
      assert list[0..] == list;
      var i := 0;
      while i < |list|
        invariant 0 <= i <= |list|
        invariant Undisturbed(View(), base) && Idle() && AllSuperseded(View(), list[i..])
        invariant UninstallAll(View(), list[i..]) == UninstallAll(st, list)
      {
        FirstIsGone(View(), base, list[i..]);
        assert list[i..][1..] == list[i + 1..];
        var res := UninstallArchive(list[i]);
        i := i + 1;
      }
      SupersededListLeavesDisk(st, base, list);
      forall a | a in list
        ensures Gone(UninstallAll(st, list), a)
      {
        var j :| 0 <= j < |list| && list[j] == a;
        SupersededAreGone(st, base, list, j);
      }
    }
  }
}
