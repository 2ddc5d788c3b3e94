/**
 What every run of installs, uninstalls and arbitrary edits of the system keeps true of
 the depot's tables and backing stores.
 */
module DepotInvariant {
  import opened Wrappers
  import opened FileSystem
  import opened DepotModel

  ghost predicate RowsKnown(st: State) {
    && (forall k :: k in st.files ==> k.path != [] && k.arch in st.archives)
    && (forall s :: s in st.archives ==> 0 < s < st.next)
    && (forall s :: s in st.store ==> s < st.next)
    && 0 < st.next
  }

  predicate IsData(n: Option<Node>) {
    n.Some? && !n.value.Dir?
  }

  predicate ShapeOk(rollback: bool, row: Row) {
    if rollback then
      && !row.install
      && (row.saved ==> IsData(row.node))
      && (row.base && IsData(row.node) ==> row.saved)
    else
      row.node.Some? && !row.base && !row.saved
  }

  ghost predicate RowShape(st: State)
    requires RowsKnown(st)
  {
    forall k :: k in st.files ==> ShapeOk(st.archives[k.arch].rollback, st.files[k])
  }

  ghost predicate HasBase(files: Files, p: Path) {
    exists b: nat :: Key(b, p) in files && files[Key(b, p)].base
  }

  /** Every path with a row has a BASE_SYSTEM row, and it is the oldest. */
  ghost predicate BaseFirst(files: Files) {
    forall k :: k in files ==>
      && HasBase(files, k.path)
      && (files[k].base ==> forall t :: Key(t, k.path) in files ==> k.arch <= t)
  }

  /** An installed archive claims the directories above each of its files. */
  ghost predicate ClosedRows(st: State) {
    forall k, q :: k in st.files && Installed(st, k.arch) && Ancestor(q, k.path) ==>
      && Key(k.arch, q) in st.files
      && st.files[Key(k.arch, q)].node.Some?
      && st.files[Key(k.arch, q)].node.value.Dir?
  }

  /** The bytes the flags promise are in the compressed store. */
  predicate BackedRow(rollback: bool, row: Row, copy: Option<Node>) {
    IsData(row.node) && (!rollback || row.saved) ==> copy == row.node
  }

  ghost predicate Backed(st: State)
    requires RowsKnown(st)
  {
    forall k :: k in st.files ==>
      BackedRow(st.archives[k.arch].rollback, st.files[k], StoredCopy(st.store, k.arch, k.path))
  }

  ghost predicate KindAgrees(files: Files, k: Key)
    requires k in files && files[k].node.Some?
  {
    var pre := PrecedingRow(files, k.path, k.arch);
    pre.Some? && pre.value.node.Some? ==> SameKind(files[k].node.value, pre.value.node.value)
  }

  /** A root never changed the kind of what it replaced. */
  ghost predicate KindsAgree(st: State)
    requires RowsKnown(st) && RowShape(st)
  {
    forall k :: k in st.files && Installed(st, k.arch) ==> KindAgrees(st.files, k)
  }

  /** An installed archive has its compressed store. */
  ghost predicate StoresKept(st: State) {
    forall a :: Installed(st, a) ==> a in st.store
  }

  ghost predicate Tables(st: State) {
    && RowsKnown(st)
    && RowShape(st)
    && BaseFirst(st.files)
    && ClosedRows(st)
    && Backed(st)
    && KindsAgree(st)
    && StoresKept(st)
  }

  ghost predicate Valid(st: State) {
    Tables(st) && TreeClosed(st.disk)
  }

  // ------------------------------------------------------------- preceding rows

  lemma {:induction false} PrecedingSame(f: Files, g: Files, p: Path, s: nat)
    requires forall t :: 0 <= t < s ==> (Key(t, p) in f <==> Key(t, p) in g)
    ensures Preceding(f, p, s) == Preceding(g, p, s)
  {
    if s == 0 {
    } else {
      assert Key(s - 1, p) in f <==> Key(s - 1, p) in g;
      PrecedingSame(f, g, p, s - 1);
    }
  }

  lemma PrecedingIs(files: Files, p: Path, s: nat, t: nat)
    requires t < s && Key(t, p) in files
    requires forall u :: t < u < s ==> Key(u, p) !in files
    ensures Preceding(files, p, s) == Some(t)
  {
  }

  lemma PrecedingNone(files: Files, p: Path, s: nat)
    requires forall u :: 0 <= u < s ==> Key(u, p) !in files
    ensures Preceding(files, p, s) == None
  {
  }

  /** uninstall_file's assertion: an installed row always has a preceding row. */
  lemma HasPreceding(st: State, k: Key)
    requires RowsKnown(st) && RowShape(st) && BaseFirst(st.files)
    requires k in st.files && !st.files[k].base
    ensures Preceding(st.files, k.path, k.arch).Some?
  {
    var b: nat :| Key(b, k.path) in st.files && st.files[Key(b, k.path)].base;
    assert b <= k.arch;
  }

  // ------------------------------------------------------------- installing

  lemma RowsAfterInstall(st: State, stage: Disk, done: set<Path>, k: Key)
    ensures RowAt(FilesAfter(st, stage, done), k) == RowAfter(st, stage, done, k)
  {
  }

  lemma FreshSerials(st: State, s: nat, p: Path)
    requires RowsKnown(st) && s >= st.next
    ensures Key(s, p) !in st.files
  {
  }

  lemma NoRecordMeansKnown(st: State, stage: Disk, p: Path)
    requires p in stage && !VerdictAt(st, stage, p).record
    ensures PrecedingRow(st.files, p, st.next).Some?
    ensures PrecedingRow(st.files, p, st.next).value.node == Get(st.disk, p)
  {
    CompareIdentical(Get(st.disk, p), PrecedingRow(st.files, p, st.next).value.node);
  }

  lemma NoConflictMeansSameKind(file: Node, actual: Node, recorded: Option<Row>)
    requires !Analyze(file, Some(actual), recorded).conflict
    ensures SameKind(file, actual)
  {
    CompareIdentical(Some(file), Some(actual));
  }

  lemma StagedKind(st: State, stage: Disk, p: Path)
    requires p in stage && p in st.disk && !Conflict(st, stage)
    ensures SameKind(stage[p], st.disk[p])
  {
    assert !VerdictAt(st, stage, p).conflict;
    NoConflictMeansSameKind(stage[p], st.disk[p], PrecedingRow(st.files, p, st.next));
  }

  lemma RollbackArchiveKnown(st: State, stage: Disk, q: Path)
    requires q in stage && RollbackRow(st, stage, stage.Keys, q).Some?
    ensures RollbackNeeded(st, stage)
  {
    if !VerdictAt(st, stage, q).record {
      var p :| p in stage.Keys && SavesParents(st, stage, p) && Ancestor(q, p);
      assert VerdictAt(st, stage, p).record;
    }
  }

  lemma NewRowKnown(st: State, stage: Disk, active: bool, k: Key)
    requires RowsKnown(st) && [] !in stage
    requires RowAfter(st, stage, stage.Keys, k).Some?
    ensures k.path != [] && k.arch in InstallArchives(st, stage, active)
  {
    if k.path in stage && k.arch == RollbackSerial(st) {
      RollbackArchiveKnown(st, stage, k.path);
    }
  }

  lemma SerialsGrow(st: State, stage: Disk, active: bool)
    requires RowsKnown(st)
    ensures forall s :: s in InstallArchives(st, stage, active) ==> 0 < s < st.next + 2
    ensures forall s :: s in InstallStore(st, stage) ==> s < st.next + 2
  {
  }

  lemma InstallKeepsRowsKnown(st: State, stage: Disk, done: set<Path>, active: bool)
    requires RowsKnown(st) && Extracted(stage)
    ensures RowsKnown(PartialInstall(st, stage, done, active))
  {
    SerialsGrow(st, stage, active);
    forall k | k in FilesAfter(st, stage, stage.Keys)
      ensures k.path != [] && k.arch in InstallArchives(st, stage, active)
    {
      RowsAfterInstall(st, stage, stage.Keys, k);
      NewRowKnown(st, stage, active, k);
    }
  }

  lemma OldArchive(st: State, stage: Disk, active: bool, s: nat)
    requires RowsKnown(st) && s in st.archives
    ensures s in InstallArchives(st, stage, active) && InstallArchives(st, stage, active)[s] == st.archives[s]
  {
  }

  /** ROLLBACK_DATA is set only on files and links, and on every base-system one. */
  lemma RollbackRowShape(st: State, stage: Disk, q: Path)
    requires q in stage && !Conflict(st, stage)
    requires RollbackRow(st, stage, stage.Keys, q).Some?
    ensures ShapeOk(true, RollbackRow(st, stage, stage.Keys, q).value)
  {
    var v := VerdictAt(st, stage, q);
    var actual := Get(st.disk, q);
    if v.record && v.saved && actual.Some? {
      StagedKind(st, stage, q);
    }
  }

  lemma NewRowShape(st: State, stage: Disk, active: bool, k: Key, row: Row)
    requires RowsKnown(st) && RowShape(st) && !Conflict(st, stage)
    requires RowAfter(st, stage, stage.Keys, k) == Some(row)
    requires k.arch in InstallArchives(st, stage, active)
    ensures ShapeOk(InstallArchives(st, stage, active)[k.arch].rollback, row)
  {
    if k.path in stage && k.arch == RollbackSerial(st) {
      RollbackArchiveKnown(st, stage, k.path);
      RollbackRowShape(st, stage, k.path);
    } else if k.path in stage && k.arch == ArchiveSerial(st) {
    } else {
      OldArchive(st, stage, active, k.arch);
      assert ShapeOk(st.archives[k.arch].rollback, st.files[k]);
    }
  }

  lemma InstallKeepsShape(st: State, stage: Disk, done: set<Path>, active: bool)
    requires RowsKnown(st) && RowShape(st) && Extracted(stage)
    requires !Conflict(st, stage)
    ensures RowsKnown(PartialInstall(st, stage, done, active))
    ensures RowShape(PartialInstall(st, stage, done, active))
  {
    InstallKeepsRowsKnown(st, stage, done, active);
    forall k | k in FilesAfter(st, stage, stage.Keys)
      ensures ShapeOk(InstallArchives(st, stage, active)[k.arch].rollback, FilesAfter(st, stage, stage.Keys)[k])
    {
      RowsAfterInstall(st, stage, stage.Keys, k);
      NewRowShape(st, stage, active, k, FilesAfter(st, stage, stage.Keys)[k]);
    }
  }

  /** Laying the rows of one install (serials n and n + 1) over older ones. */
  lemma BaseFirstExtends(older: Files, files: Files, n: nat)
    requires BaseFirst(older)
    requires forall k :: k in older ==> k.arch < n && k in files && files[k] == older[k]
    requires forall k :: k in files && k !in older ==> n <= k.arch
    requires forall k :: k in files && k !in older && files[k].base ==>
      k.arch == n && forall t: nat :: Key(t, k.path) !in older
    requires forall k :: k in files && k !in older ==> HasBase(older, k.path) || HasBase(files, k.path)
    ensures BaseFirst(files)
  {
    forall k | k in files
      ensures HasBase(files, k.path)
      ensures files[k].base ==> forall t: nat :: Key(t, k.path) in files ==> k.arch <= t
    {
      if HasBase(older, k.path) {
        var b: nat :| Key(b, k.path) in older && older[Key(b, k.path)].base;
        assert Key(b, k.path) in files && files[Key(b, k.path)].base;
      }
    }
  }

  lemma NewRowBase(st: State, stage: Disk, k: Key)
    requires RowsKnown(st) && BaseFirst(st.files)
    requires k in FilesAfter(st, stage, stage.Keys) && k !in st.files
    ensures st.next <= k.arch && k.path in stage
    ensures HasBase(st.files, k.path) || HasBase(FilesAfter(st, stage, stage.Keys), k.path)
    ensures FilesAfter(st, stage, stage.Keys)[k].base ==>
      k.arch == st.next && forall t: nat :: Key(t, k.path) !in st.files
  {
    RowsAfterInstall(st, stage, stage.Keys, k);
    var p, pre := k.path, Preceding(st.files, k.path, st.next);
    if pre.Some? {
      assert HasBase(st.files, Key(pre.value, p).path);
    } else {
      RowsAfterInstall(st, stage, stage.Keys, Key(st.next, p));
      assert HasBase(FilesAfter(st, stage, stage.Keys), p);
      forall t: nat
        ensures Key(t, p) !in st.files
      {
        if t >= st.next {
          FreshSerials(st, t, p);
        }
      }
    }
  }

  lemma InstallKeepsBaseFirst(st: State, stage: Disk)
    requires RowsKnown(st) && BaseFirst(st.files)
    ensures BaseFirst(FilesAfter(st, stage, stage.Keys))
  {
    var files := FilesAfter(st, stage, stage.Keys);
    forall k | k in st.files
      ensures k.arch < st.next && k in files && files[k] == st.files[k]
    {
      RowsAfterInstall(st, stage, stage.Keys, k);
    }
    forall k | k in files && k !in st.files
      ensures st.next <= k.arch
      ensures HasBase(st.files, k.path) || HasBase(files, k.path)
      ensures files[k].base ==> k.arch == st.next && forall t: nat :: Key(t, k.path) !in st.files
    {
      NewRowBase(st, stage, k);
    }
    BaseFirstExtends(st.files, files, st.next);
  }

  lemma NewRowClosed(st: State, stage: Disk, active: bool, k: Key, q: Path)
    requires RowsKnown(st) && ClosedRows(st) && Extracted(stage)
    requires RowAfter(st, stage, stage.Keys, k).Some? && Ancestor(q, k.path)
    requires k.arch in InstallArchives(st, stage, active) && !InstallArchives(st, stage, active)[k.arch].rollback
    ensures var row := RowAfter(st, stage, stage.Keys, Key(k.arch, q));
      row.Some? && row.value.node.Some? && row.value.node.value.Dir?
  {
    if k.path in stage && k.arch == RollbackSerial(st) {
      RollbackArchiveKnown(st, stage, k.path);
    } else if k in st.files {
      assert Installed(st, k.arch);
    }
  }

  lemma InstallKeepsClosedRows(st: State, stage: Disk, done: set<Path>, active: bool)
    requires RowsKnown(st) && ClosedRows(st) && Extracted(stage)
    ensures ClosedRows(PartialInstall(st, stage, done, active))
  {
    var after := PartialInstall(st, stage, done, active);
    forall k, q | k in after.files && Installed(after, k.arch) && Ancestor(q, k.path)
      ensures RowAt(after.files, Key(k.arch, q)).Some?
      ensures RowAt(after.files, Key(k.arch, q)).value.node.Some?
      ensures RowAt(after.files, Key(k.arch, q)).value.node.value.Dir?
    {
      RowsAfterInstall(st, stage, stage.Keys, k);
      RowsAfterInstall(st, stage, stage.Keys, Key(k.arch, q));
      NewRowClosed(st, stage, active, k, q);
    }
  }

  lemma OwnStore(st: State, stage: Disk, p: Path)
    requires p in stage
    ensures StoredCopy(InstallStore(st, stage), ArchiveSerial(st), p) == Some(stage[p])
  {
  }

  lemma OldStore(st: State, stage: Disk, s: nat, p: Path)
    requires s < st.next
    ensures StoredCopy(InstallStore(st, stage), s, p) == StoredCopy(st.store, s, p)
  {
  }

  lemma NewRollbackBacked(st: State, stage: Disk, q: Path)
    requires q in stage && !Conflict(st, stage)
    requires RollbackRow(st, stage, stage.Keys, q).Some?
    ensures BackedRow(true, RollbackRow(st, stage, stage.Keys, q).value,
                      StoredCopy(InstallStore(st, stage), RollbackSerial(st), q))
  {
    if RollbackRow(st, stage, stage.Keys, q).value.saved {
      RollbackRowShape(st, stage, q);
      assert q in Saved(st, stage);
    }
  }

  lemma NewRowBacked(st: State, stage: Disk, active: bool, k: Key, row: Row)
    requires RowsKnown(st) && Backed(st) && !Conflict(st, stage)
    requires RowAfter(st, stage, stage.Keys, k) == Some(row)
    requires k.arch in InstallArchives(st, stage, active)
    ensures BackedRow(InstallArchives(st, stage, active)[k.arch].rollback, row,
                      StoredCopy(InstallStore(st, stage), k.arch, k.path))
  {
    if k.path in stage && k.arch == RollbackSerial(st) {
      RollbackArchiveKnown(st, stage, k.path);
      NewRollbackBacked(st, stage, k.path);
    } else if k.path in stage && k.arch == ArchiveSerial(st) {
      OwnStore(st, stage, k.path);
    } else {
      OldArchive(st, stage, active, k.arch);
      OldStore(st, stage, k.arch, k.path);
      assert BackedRow(st.archives[k.arch].rollback, st.files[k], StoredCopy(st.store, k.arch, k.path));
    }
  }

  lemma InstallKeepsBacked(st: State, stage: Disk, done: set<Path>, active: bool)
    requires RowsKnown(st) && Backed(st) && Extracted(stage)
    requires !Conflict(st, stage)
    ensures RowsKnown(PartialInstall(st, stage, done, active))
    ensures Backed(PartialInstall(st, stage, done, active))
  {
    InstallKeepsRowsKnown(st, stage, done, active);
    forall k | k in FilesAfter(st, stage, stage.Keys)
      ensures BackedRow(InstallArchives(st, stage, active)[k.arch].rollback, FilesAfter(st, stage, stage.Keys)[k],
                        StoredCopy(InstallStore(st, stage), k.arch, k.path))
    {
      RowsAfterInstall(st, stage, stage.Keys, k);
      NewRowBacked(st, stage, active, k, FilesAfter(st, stage, stage.Keys)[k]);
    }
  }

  lemma OldPreceding(st: State, stage: Disk, p: Path, s: nat)
    requires RowsKnown(st) && s <= st.next
    ensures var files := FilesAfter(st, stage, stage.Keys);
      Preceding(files, p, s) == Preceding(st.files, p, s) && PrecedingRow(files, p, s) == PrecedingRow(st.files, p, s)
  {
    var files := FilesAfter(st, stage, stage.Keys);
    forall t | 0 <= t < s
      ensures Key(t, p) in files <==> Key(t, p) in st.files
    {
      RowsAfterInstall(st, stage, stage.Keys, Key(t, p));
    }
    PrecedingSame(files, st.files, p, s);
    if Preceding(st.files, p, s).Some? {
      RowsAfterInstall(st, stage, stage.Keys, Key(Preceding(st.files, p, s).value, p));
    }
  }

  lemma OldKindAgrees(st: State, stage: Disk, k: Key)
    requires RowsKnown(st) && RowShape(st) && KindsAgree(st)
    requires k in st.files && Installed(st, k.arch)
    ensures k in FilesAfter(st, stage, stage.Keys) && FilesAfter(st, stage, stage.Keys)[k].node.Some?
    ensures KindAgrees(FilesAfter(st, stage, stage.Keys), k)
  {
    RowsAfterInstall(st, stage, stage.Keys, k);
    assert KindAgrees(st.files, k);
    OldPreceding(st, stage, k.path, k.arch);
  }

  /** The row a fresh archive's file is laid over: its rollback row, else the row known before. */
  lemma NewPreceding(st: State, stage: Disk, p: Path)
    requires RowsKnown(st) && p in stage
    ensures var files := FilesAfter(st, stage, stage.Keys);
      var pre := Preceding(files, p, ArchiveSerial(st));
      match RollbackRow(st, stage, stage.Keys, p)
      case Some(row) => pre == Some(RollbackSerial(st)) && files[Key(RollbackSerial(st), p)] == row
      case None =>
        && pre.Some? && pre == Preceding(st.files, p, st.next)
        && files[Key(pre.value, p)] == st.files[Key(pre.value, p)]
        && st.files[Key(pre.value, p)].node == Get(st.disk, p)
  {
    var files := FilesAfter(st, stage, stage.Keys);
    var r := RollbackSerial(st);
    RowsAfterInstall(st, stage, stage.Keys, Key(r, p));
    assert Preceding(files, p, r + 1) == if Key(r, p) in files then Some(r) else Preceding(files, p, r);
    if RollbackRow(st, stage, stage.Keys, p).None? {
      OldPreceding(st, stage, p, st.next);
      NoRecordMeansKnown(st, stage, p);
    }
  }

  lemma ArchiveRowIsStaged(st: State, stage: Disk, p: Path)
    requires p in stage
    ensures var files := FilesAfter(st, stage, stage.Keys); var k := Key(ArchiveSerial(st), p);
      k in files && files[k] == Row(Some(stage[p]), false, VerdictAt(st, stage, p).install, false)
  {
    RowsAfterInstall(st, stage, stage.Keys, Key(ArchiveSerial(st), p));
  }

  lemma NewKindAgrees(st: State, stage: Disk, p: Path)
    requires RowsKnown(st) && p in stage && !Conflict(st, stage)
    ensures var files := FilesAfter(st, stage, stage.Keys); var k := Key(ArchiveSerial(st), p);
      k in files && files[k].node.Some? && KindAgrees(files, k)
  {
    ArchiveRowIsStaged(st, stage, p);
    NewPreceding(st, stage, p);
    if p in st.disk {
      StagedKind(st, stage, p);
    }
  }

  lemma NewRowKind(st: State, stage: Disk, active: bool, k: Key)
    requires RowsKnown(st) && RowShape(st) && KindsAgree(st) && !Conflict(st, stage)
    requires RowAfter(st, stage, stage.Keys, k).Some?
    requires k.arch in InstallArchives(st, stage, active) && !InstallArchives(st, stage, active)[k.arch].rollback
    ensures k in FilesAfter(st, stage, stage.Keys) && FilesAfter(st, stage, stage.Keys)[k].node.Some?
    ensures KindAgrees(FilesAfter(st, stage, stage.Keys), k)
  {
    if k.path in stage && k.arch == RollbackSerial(st) {
      RollbackArchiveKnown(st, stage, k.path);
    } else if k.path in stage && k.arch == ArchiveSerial(st) {
      assert k == Key(ArchiveSerial(st), k.path);
      NewKindAgrees(st, stage, k.path);
    } else {
      OldArchive(st, stage, active, k.arch);
      OldKindAgrees(st, stage, k);
    }
  }

  lemma InstallKeepsKinds(st: State, stage: Disk, done: set<Path>, active: bool)
    requires RowsKnown(st) && RowShape(st) && BaseFirst(st.files) && KindsAgree(st) && Extracted(stage)
    requires !Conflict(st, stage)
    ensures RowsKnown(PartialInstall(st, stage, done, active)) && RowShape(PartialInstall(st, stage, done, active))
    ensures KindsAgree(PartialInstall(st, stage, done, active))
  {
    InstallKeepsShape(st, stage, done, active);
    var archives := InstallArchives(st, stage, active);
    forall k | k in FilesAfter(st, stage, stage.Keys) && k.arch in archives && !archives[k.arch].rollback
      ensures FilesAfter(st, stage, stage.Keys)[k].node.Some?
      ensures KindAgrees(FilesAfter(st, stage, stage.Keys), k)
    {
      RowsAfterInstall(st, stage, stage.Keys, k);
      NewRowKind(st, stage, active, k);
    }
  }

  /** Files are only placed into directories that are in place. */
  ghost predicate ClosedPart(stage: Disk, done: set<Path>) {
    forall q, p :: p in done && p in stage && Ancestor(q, p) ==> q in done
  }

  lemma InstallDiskClosed(st: State, stage: Disk, done: set<Path>)
    requires TreeClosed(st.disk) && Extracted(stage) && !Conflict(st, stage) && ClosedPart(stage, done)
    ensures TreeClosed(InstallDisk(st, stage, done))
  {
    var disk := InstallDisk(st, stage, done);
    forall a, p | p in disk && Ancestor(a, p)
      ensures a in disk && disk[a].Dir?
    {
      if p in stage && p in done {
        assert a in stage && stage[a].Dir?;
      }
      if a in stage && a in st.disk {
        StagedKind(st, stage, a);
      }
    }
  }

  /** Rows and stores stay in order from the moment the rows are committed. */
  lemma PartialInstallKeepsTables(st: State, stage: Disk, done: set<Path>, active: bool)
    requires Tables(st) && Extracted(stage) && !Conflict(st, stage)
    ensures Tables(PartialInstall(st, stage, done, active))
  {
    InstallKeepsShape(st, stage, done, active);
    InstallKeepsBaseFirst(st, stage);
    InstallKeepsClosedRows(st, stage, done, active);
    InstallKeepsBacked(st, stage, done, active);
    InstallKeepsKinds(st, stage, done, active);
  }

  lemma PartialInstallKeepsValid(st: State, stage: Disk, done: set<Path>, active: bool)
    requires Valid(st) && Extracted(stage) && !Conflict(st, stage) && ClosedPart(stage, done)
    ensures Valid(PartialInstall(st, stage, done, active))
  {
    PartialInstallKeepsTables(st, stage, done, active);
    InstallDiskClosed(st, stage, done);
  }

  lemma InstallKeepsValid(st: State, stage: Disk)
    requires Valid(st) && Extracted(stage)
    ensures Valid(Install(st, stage))
  {
    if !Conflict(st, stage) {
      PartialInstallKeepsValid(st, stage, stage.Keys, true);
    }
  }

  // ------------------------------------------------------------- uninstalling

  lemma UninstallKeepsRowsKnown(st: State, a: nat)
    requires RowsKnown(st) && Held(st, a)
    ensures RowsKnown(Uninstalled(st, a))
  {
  }

  lemma UninstallKeepsShape(st: State, a: nat)
    requires RowsKnown(st) && RowShape(st) && Held(st, a)
    ensures RowsKnown(Uninstalled(st, a)) && RowShape(Uninstalled(st, a))
  {
    UninstallKeepsRowsKnown(st, a);
  }

  lemma UninstallKeepsBaseFirst(st: State, a: nat)
    requires RowsKnown(st) && RowShape(st) && BaseFirst(st.files) && Held(st, a)
    ensures BaseFirst(RemainingFiles(st, a))
  {
    var files := RemainingFiles(st, a);
    forall k | k in files
      ensures HasBase(files, k.path)
    {
      var b: nat :| Key(b, k.path) in st.files && st.files[Key(b, k.path)].base;
      assert ShapeOk(st.archives[b].rollback, st.files[Key(b, k.path)]);
      assert Key(b, k.path) in files && files[Key(b, k.path)].base;
    }
  }

  lemma UninstallKeepsClosedRows(st: State, a: nat)
    requires RowsKnown(st) && RowShape(st) && ClosedRows(st) && Held(st, a)
    ensures ClosedRows(Uninstalled(st, a))
  {
    var after := Uninstalled(st, a);
    forall k, q | k in after.files && Installed(after, k.arch) && Ancestor(q, k.path)
      ensures Key(k.arch, q) in after.files
      ensures after.files[Key(k.arch, q)].node.Some?
      ensures after.files[Key(k.arch, q)].node.value.Dir?
    {
      assert Installed(st, k.arch);
      assert ShapeOk(false, st.files[Key(k.arch, q)]);
    }
  }

  lemma UninstallKeepsBacked(st: State, a: nat)
    requires RowsKnown(st) && RowShape(st) && Backed(st) && Held(st, a)
    ensures RowsKnown(Uninstalled(st, a)) && Backed(Uninstalled(st, a))
  {
    UninstallKeepsRowsKnown(st, a);
    var after := Uninstalled(st, a);
    forall k | k in after.files
      ensures BackedRow(after.archives[k.arch].rollback, after.files[k], StoredCopy(after.store, k.arch, k.path))
    {
      assert BackedRow(st.archives[k.arch].rollback, st.files[k], StoredCopy(st.store, k.arch, k.path));
    }
  }

  /** After a's rows are gone, a row laid over one of them lies over the row below it. */
  lemma PrecedingAfterUninstall(st: State, a: nat, k: Key)
    requires RowsKnown(st) && RowShape(st) && Held(st, a)
    requires k in st.files && k.arch != a && Installed(st, k.arch)
    ensures Preceding(RemainingFiles(st, a), k.path, k.arch) ==
      if Preceding(st.files, k.path, k.arch) == Some(a) then Preceding(st.files, k.path, a)
      else Preceding(st.files, k.path, k.arch)
  {
    var p := k.path;
    var files := RemainingFiles(st, a);
    var s := Preceding(st.files, p, k.arch);
    forall t: nat | Key(t, p) in st.files && t < k.arch && t != a
      ensures Key(t, p) in files
    {
      assert !Discarded(st, a, Key(t, p));
    }
    var target := if s == Some(a) then Preceding(st.files, p, a) else s;
    match target {
      case Some(t) => PrecedingIs(files, p, k.arch, t);
      case None => PrecedingNone(files, p, k.arch);
    }
  }

  lemma UninstallKeepsKinds(st: State, a: nat)
    requires RowsKnown(st) && RowShape(st) && KindsAgree(st) && Held(st, a)
    ensures RowsKnown(Uninstalled(st, a)) && RowShape(Uninstalled(st, a))
    ensures KindsAgree(Uninstalled(st, a))
  {
    UninstallKeepsShape(st, a);
    var after := Uninstalled(st, a);
    forall k | k in after.files && Installed(after, k.arch)
      ensures KindAgrees(after.files, k)
    {
      assert Installed(st, k.arch) && KindAgrees(st.files, k);
      PrecedingAfterUninstall(st, a, k);
      if Preceding(st.files, k.path, k.arch) == Some(a) {
        assert KindAgrees(st.files, Key(a, k.path));
      }
    }
  }

  lemma RevertedKeepsDirs(st: State, a: nat, p: Path)
    requires Tables(st) && Held(st, a)
    requires p in st.disk && st.disk[p].Dir? && Reverted(st, a, p).Some?
    ensures Reverted(st, a, p).value.Dir?
  {
    if Current(st, a, p) {
      assert KindAgrees(st.files, Key(a, p));
    }
  }

  lemma SweptBelow(st: State, a: nat, done: set<Path>, q: Path, p: Path)
    requires Ancestor(q, p)
    ensures Swept(st, a, done, q) ==> Swept(st, a, done, p)
  {
    if Swept(st, a, done, q) {
      var d :| d in done && Removed(st, a, d) && (d == q || Ancestor(d, q));
      assert Ancestor(d, p);
    }
  }

  lemma UninstallDiskClosed(st: State, a: nat, done: set<Path>)
    requires Valid(st) && Held(st, a)
    ensures TreeClosed(UninstallDisk(st, a, done))
  {
    var disk := UninstallDisk(st, a, done);
    forall q, p | p in disk && Ancestor(q, p)
      ensures q in disk && disk[q].Dir?
    {
      SweptBelow(st, a, done, q, p);
      if q in done && Reverted(st, a, q).Some? {
        RevertedKeepsDirs(st, a, q);
      }
    }
  }

  /** A row whose bytes are missing is not one that goes along with the archive's own. */
  lemma FailingKeepsRow(st: State, a: nat, p: Path)
    requires RowsKnown(st) && RowShape(st) && Backed(st)
    requires LacksBytes(st, a, p)
    ensures !GoesAlong(st.files[Key(Preceding(st.files, p, a).value, p)])
  {
    var k := Key(Preceding(st.files, p, a).value, p);
    assert ShapeOk(st.archives[k.arch].rollback, st.files[k]);
    assert BackedRow(st.archives[k.arch].rollback, st.files[k], StoredCopy(st.store, k.arch, p));
  }

  lemma UninstalledIsValid(st: State, a: nat)
    requires Valid(st) && Held(st, a)
    ensures Valid(Uninstalled(st, a))
  {
    UninstallKeepsShape(st, a);
    UninstallKeepsBaseFirst(st, a);
    UninstallKeepsClosedRows(st, a);
    UninstallKeepsBacked(st, a);
    UninstallKeepsKinds(st, a);
    UninstallDiskClosed(st, a, PathsOf(st.files, a));
  }

  lemma InactiveShape(st: State, a: nat, after: State)
    requires RowsKnown(st) && RowShape(st) && Backed(st)
    requires after == st.(disk := after.disk, archives := Deactivated(st.archives, a))
    ensures RowsKnown(after) && RowShape(after) && Backed(after)
  {
    forall k | k in after.files
      ensures ShapeOk(after.archives[k.arch].rollback, after.files[k])
      ensures BackedRow(after.archives[k.arch].rollback, after.files[k], StoredCopy(after.store, k.arch, k.path))
    {
      assert ShapeOk(st.archives[k.arch].rollback, st.files[k]);
      assert BackedRow(st.archives[k.arch].rollback, st.files[k], StoredCopy(st.store, k.arch, k.path));
    }
  }

  /** The active flag and the disk play no part in the order of the tables. */
  lemma InactiveTables(st: State, a: nat, after: State)
    requires Tables(st)
    requires after == st.(disk := after.disk, archives := Deactivated(st.archives, a))
    ensures Tables(after)
  {
    assert forall s :: Installed(after, s) <==> Installed(st, s);
    InactiveShape(st, a, after);
  }

  lemma PartialUninstallIsValid(st: State, a: nat, done: set<Path>)
    requires Valid(st) && Held(st, a)
    ensures Valid(PartialUninstall(st, a, done))
  {
    InactiveTables(st, a, PartialUninstall(st, a, done));
    UninstallDiskClosed(st, a, done);
  }

  lemma UninstallHeldKeepsValid(st: State, a: nat)
    requires Valid(st) && Held(st, a)
    ensures Valid(UninstallHeld(st, a))
  {
    if UninstallFails(st, a) {
      PartialUninstallIsValid(st, a, PathsOf(st.files, a));
    } else {
      UninstalledIsValid(st, a);
    }
  }

  lemma UninstallKeepsValid(st: State, a: nat)
    requires Valid(st)
    ensures Valid(Uninstall(st, a))
  {
    if Installed(st, a) {
      UninstallHeldKeepsValid(st, a);
    }
  }

  // ------------------------------------------------------------- which archives stay

  ghost predicate HasRows(files: Files, s: nat) {
    exists p :: Key(s, p) in files
  }

  /** After an uninstall exactly the other archives that still have a row are listed, as they were. */
  lemma ArchivesLeft(st: State, a: nat, s: nat)
    requires Installed(st, a) && !UninstallFails(st, a)
    ensures s in Uninstall(st, a).archives <==>
      s in st.archives && s != a && HasRows(Uninstall(st, a).files, s)
    ensures s in Uninstall(st, a).archives ==> Uninstall(st, a).archives[s] == st.archives[s]
  {
    var files := RemainingFiles(st, a);
    if k :| k in files && k.arch == s {
      assert Key(s, k.path) in files;
    }
    if p :| Key(s, p) in files {
      assert Key(s, p).arch == s;
    }
  }

  /** Its own store goes, and no other, whatever archives lose their last row. */
  lemma StoresLeft(st: State, a: nat, s: nat)
    requires Installed(st, a)
    ensures s in Uninstall(st, a).store <==> s in st.store && (s != a || UninstallFails(st, a))
    ensures s in Uninstall(st, a).store ==> Uninstall(st, a).store[s] == st.store[s]
    ensures Uninstall(st, a).next == st.next
  {
  }

  /** An uninstall that fails keeps all archives, and only the archive itself becomes inactive. */
  lemma ArchivesKept(st: State, a: nat, s: nat)
    requires Installed(st, a) && UninstallFails(st, a)
    ensures s in Uninstall(st, a).archives <==> s in st.archives
    ensures s in st.archives ==>
      Uninstall(st, a).archives[s] ==
        ArchiveRow(st.archives[s].rollback, if s == a then false else st.archives[s].active)
  {
  }

  // ------------------------------------------------------------- every run

  lemma FreshIsValid(base: Disk)
    requires TreeClosed(base)
    ensures Valid(Fresh(base))
  {
  }

  /** Whatever is installed, uninstalled or edited, in any order, the depot stays in order. */
  lemma {:induction false} RunKeepsValid(st: State, steps: seq<Step>)
    requires Valid(st)
    requires forall i :: 0 <= i < |steps| ==> StepAllowed(steps[i])
    ensures Valid(Run(st, steps))
    ensures Run(st, steps).next >= st.next
    decreases |steps|
  {
    if steps == [] {
    } else {
      assert StepAllowed(steps[0]);
      match steps[0] {
        case DoInstall(stage) => InstallKeepsValid(st, stage);
        case DoUninstall(serial) => UninstallKeepsValid(st, serial);
        case UserEdit(disk) =>
          assert Tables(st) ==> Tables(st.(disk := disk));
      }
      RunKeepsValid(Next(st, steps[0]), steps[1..]);
    }
  }
}
