/**
 Installing and uninstalling again, also after an install that stopped half way, and what
 the backing stores hold while users edit files between operations.  Where the program
 falls short of its promise, the lemmas say exactly when.
 */
module DepotRepair {
  import opened Wrappers
  import opened FileSystem
  import opened TextOrder
  import opened PathOrder
  import opened DepotModel
  import opened DepotInvariant
  import opened DepotLayers

  // ------------------------------------------------------------- what can go wrong

  /** One staged file before its install: the file, what is on disk, the latest row for its
      path, whether a file below it gets its parents saved, and the stored copy of that row. */
  datatype Case = Case(file: Node, actual: Node, row: Option<Row>, parentSaved: bool, copy: Option<Node>) {

    predicate Recorded() {
      row.Some? && row.value.node == Some(actual)
    }

    /** A recorded directory gets new attributes, and a file below it makes analyze_stage
        save the staged directory instead of the one on disk. */
    predicate SavesWrongDir() {
      file.Dir? && file != actual && Recorded() && parentSaved
    }

    predicate NewData() {
      !file.Dir? && !actual.Dir? && file.data != actual.data
    }

    /** A file edited only in its attributes is replaced by one with other data: its row is
        recorded, its bytes are not. */
    predicate LosesBytes() {
      && NewData()
      && row.Some? && row.value.node.Some? && row.value.node != Some(actual)
      && SameKind(row.value.node.value, actual) && DigestOf(row.value.node) == DigestOf(Some(actual))
    }

    /** The record of what is on disk was itself made without bytes. */
    predicate LacksCopy() {
      NewData() && Recorded() && copy != Some(actual)
    }

    /** The bytes that were replaced are nowhere in store, so that putting them back is an error. */
    predicate BytesMissing() {
      LosesBytes() || (NewData() && Recorded() && copy.None?)
    }

    /** A link keeps its target but not its permissions, which install_info never sets. */
    predicate SticksLink() {
      && file.Link? && actual.Link? && file.data == actual.data
      && file.meta.perm != actual.meta.perm
      && (row.None? || file.meta.uid != actual.meta.uid || file.meta.gid != actual.meta.gid)
    }

    predicate Safe() {
      !SavesWrongDir() && !LosesBytes() && !LacksCopy() && !SticksLink()
    }
  }

  function OldCopy(st: State, p: Path): Option<Node> {
    match Preceding(st.files, p, st.next)
    case None => None
    case Some(s) => StoredCopy(st.store, s, p)
  }

  ghost function CaseAt(st: State, stage: Disk, p: Path): Case
    requires p in stage && p in st.disk
  {
    Case(stage[p], st.disk[p], PrecedingRow(st.files, p, st.next), ParentSaved(st, stage, stage.Keys, p),
      OldCopy(st, p))
  }

  ghost predicate SafeAt(st: State, stage: Disk, p: Path)
    requires p in stage
  {
    p in st.disk ==> CaseAt(st, stage, p).Safe()
  }

  // ------------------------------------------------------------- one path

  /** What a file is laid over: what was on disk, or the staged directory saved as a parent. */
  function Below(file: Node, actual: Option<Node>, row: Option<Row>, parentSaved: bool): Option<Node> {
    if !Analyze(file, actual, row).record && parentSaved then Some(file) else actual
  }

  function BelowCopy(file: Node, actual: Option<Node>, row: Option<Row>, parentSaved: bool, copy: Option<Node>)
    : Option<Node>
  {
    var v := Analyze(file, actual, row);
    if v.record then if v.saved then actual else None
    else if parentSaved then None
    else copy
  }

  /** Install and uninstall of one file, by value. */
  function Outcome(file: Node, actual: Option<Node>, row: Option<Row>, parentSaved: bool, copy: Option<Node>)
    : Option<Node>
  {
    var now := Placed(file, actual, Analyze(file, actual, row).install);
    var below := Below(file, actual, row, parentSaved);
    if now != file then Some(now)
    else if below.None? then None
    else Some(Restore(file, below.value, BelowCopy(file, actual, row, parentSaved, copy)))
  }

  lemma DirOutcome(c: Case)
    requires c.file.Dir? && c.actual.Dir?
    ensures Outcome(c.file, Some(c.actual), c.row, c.parentSaved, c.copy) == Some(c.actual) <==> c.Safe()
  {
    CompareIdentical(Some(c.file), Some(c.actual));
    if c.row.Some? {
      CompareIdentical(Some(c.actual), c.row.value.node);
    }
  }

  lemma DataOutcome(c: Case)
    requires IsData(Some(c.file)) && SameKind(c.file, c.actual) && !c.parentSaved
    ensures Outcome(c.file, Some(c.actual), c.row, c.parentSaved, c.copy) == Some(c.actual) <==> c.Safe()
  {
    CompareIdentical(Some(c.file), Some(c.actual));
    if c.row.Some? {
      CompareIdentical(Some(c.actual), c.row.value.node);
    }
  }

  /** The file is in place, and the version below it needs bytes that are not there. */
  predicate NeedsBytes(now: Node, file: Node, below: Option<Node>, copy: Option<Node>) {
    now == file && below.Some? && Compare(Some(file), below).data && copy.None?
  }

  predicate CaseNeedsBytes(c: Case) {
    var actual := Some(c.actual);
    NeedsBytes(
      Placed(c.file, actual, Analyze(c.file, actual, c.row).install),
      c.file,
      Below(c.file, actual, c.row, c.parentSaved),
      BelowCopy(c.file, actual, c.row, c.parentSaved, c.copy))
  }

  lemma BytesNeeded(c: Case)
    requires SameKind(c.file, c.actual) && (c.parentSaved ==> c.file.Dir?)
    ensures CaseNeedsBytes(c) <==> c.BytesMissing()
  {
    CompareIdentical(Some(c.file), Some(c.actual));
    if c.row.Some? {
      CompareIdentical(Some(c.actual), c.row.value.node);
    }
  }

  lemma AbsentOutcome(file: Node, row: Option<Row>, copy: Option<Node>)
    ensures Outcome(file, None, row, false, copy) == None
  {
  }

  // ------------------------------------------------------------- in the depot

  lemma NewestIsArchive(st: State, stage: Disk, p: Path)
    requires RowsKnown(st)
    ensures !Superseded(FilesAfter(st, stage, stage.Keys), p, ArchiveSerial(st))
  {
    var files := FilesAfter(st, stage, stage.Keys);
    forall t: nat | ArchiveSerial(st) < t
      ensures Key(t, p) !in files
    {
      RowsAfterInstall(st, stage, stage.Keys, Key(t, p));
      FreshSerials(st, t, p);
    }
  }

  lemma CopyOfRollback(st: State, stage: Disk, p: Path)
    requires RowsKnown(st) && p in stage
    ensures StoredCopy(InstallStore(st, stage), RollbackSerial(st), p) ==
      if p in st.disk && VerdictAt(st, stage, p).saved then Some(st.disk[p]) else None
  {
    assert st.next !in st.store;
    if p in st.disk && VerdictAt(st, stage, p).saved {
      assert p in Saved(st, stage);
    }
  }

  /** The version uninstall_file puts back over a freshly placed file, and its stored copy. */
  lemma LaidOver(st: State, stage: Disk, p: Path)
    requires RowsKnown(st) && p in stage
    ensures var files := FilesAfter(st, stage, stage.Keys);
      var saved := ParentSaved(st, stage, stage.Keys, p);
      var actual, row := Get(st.disk, p), PrecedingRow(st.files, p, st.next);
      var pre := Preceding(files, p, ArchiveSerial(st));
      && pre.Some?
      && files[Key(pre.value, p)].node == Below(stage[p], actual, row, saved)
      && (actual.Some? ==>
            StoredCopy(InstallStore(st, stage), pre.value, p) ==
              BelowCopy(stage[p], actual, row, saved, OldCopy(st, p)))
  {
    NewPreceding(st, stage, p);
    CopyOfRollback(st, stage, p);
    if RollbackRow(st, stage, stage.Keys, p).None? {
      var s := Preceding(st.files, p, st.next).value;
      OldStore(st, stage, s, p);
    }
  }

  lemma PlacedIsCurrent(st: State, stage: Disk, done: set<Path>, active: bool, p: Path)
    requires RowsKnown(st) && p in stage && p in done
    ensures var mid := PartialInstall(st, stage, done, active);
      && p in mid.disk
      && mid.disk[p] == Placed(stage[p], Get(st.disk, p), VerdictAt(st, stage, p).install)
      && (Current(mid, ArchiveSerial(st), p) <==> mid.disk[p] == stage[p])
  {
    ArchiveRowIsStaged(st, stage, p);
    NewestIsArchive(st, stage, p);
  }

  lemma RevertedPlaced(st: State, stage: Disk, done: set<Path>, active: bool, p: Path)
    requires RowsKnown(st) && p in stage && p in done
    requires ParentSaved(st, stage, stage.Keys, p) ==> p in st.disk
    ensures var saved := ParentSaved(st, stage, stage.Keys, p);
      var actual, row := Get(st.disk, p), PrecedingRow(st.files, p, st.next);
      Reverted(PartialInstall(st, stage, done, active), ArchiveSerial(st), p) ==
        if actual.None? && !saved then None else Outcome(stage[p], actual, row, saved, OldCopy(st, p))
  {
    PlacedIsCurrent(st, stage, done, active, p);
    LaidOver(st, stage, p);
  }

  lemma RevertedUnplaced(st: State, stage: Disk, done: set<Path>, active: bool, p: Path)
    requires RowsKnown(st) && (p in stage ==> p !in done)
    ensures Reverted(PartialInstall(st, stage, done, active), ArchiveSerial(st), p) == Get(st.disk, p)
  {
    var mid := PartialInstall(st, stage, done, active);
    RowsAfterInstall(st, stage, stage.Keys, Key(ArchiveSerial(st), p));
    FreshSerials(st, ArchiveSerial(st), p);
    assert Get(mid.disk, p) == Get(st.disk, p);
    if p in stage && Get(st.disk, p) == Some(stage[p]) {
      LaidOver(st, stage, p);
    }
  }

  lemma ParentsExist(st: State, stage: Disk, p: Path)
    requires TreeClosed(st.disk) && ParentSaved(st, stage, stage.Keys, p)
    ensures p in st.disk
  {
  }

  /** A placed path comes back exactly when it is safe. */
  lemma PlacedComesBack(st: State, stage: Disk, done: set<Path>, active: bool, p: Path)
    requires RowsKnown(st) && TreeClosed(st.disk) && Extracted(stage) && !Conflict(st, stage)
    requires p in stage && p in done
    ensures Reverted(PartialInstall(st, stage, done, active), ArchiveSerial(st), p) == Get(st.disk, p)
      <==> SafeAt(st, stage, p)
  {
    if ParentSaved(st, stage, stage.Keys, p) {
      ParentsExist(st, stage, p);
      assert stage[p].Dir?;
    }
    RevertedPlaced(st, stage, done, active, p);
    if p in st.disk {
      assert !VerdictAt(st, stage, p).conflict;
      NoConflictMeansSameKind(stage[p], st.disk[p], PrecedingRow(st.files, p, st.next));
      if stage[p].Dir? {
        DirOutcome(CaseAt(st, stage, p));
      } else {
        DataOutcome(CaseAt(st, stage, p));
      }
    } else {
      AbsentOutcome(stage[p], PrecedingRow(st.files, p, st.next), OldCopy(st, p));
    }
  }

  /** What the repair removes was not there before. */
  lemma RemovedWasNew(st: State, stage: Disk, done: set<Path>, active: bool, d: Path)
    requires RowsKnown(st) && TreeClosed(st.disk) && Extracted(stage) && !Conflict(st, stage)
    requires Removed(PartialInstall(st, stage, done, active), ArchiveSerial(st), d)
    ensures d in stage && d in done && d !in st.disk
  {
    if d in stage && d in done {
      if d in st.disk {
        RevertedPlaced(st, stage, done, active, d);
      }
    } else {
      RevertedUnplaced(st, stage, done, active, d);
    }
  }

  lemma ArchivePaths(st: State, stage: Disk, p: Path)
    requires RowsKnown(st)
    ensures p in PathsOf(FilesAfter(st, stage, stage.Keys), ArchiveSerial(st)) <==> p in stage
  {
    var k := Key(ArchiveSerial(st), p);
    RowsAfterInstall(st, stage, stage.Keys, k);
    FreshSerials(st, ArchiveSerial(st), p);
    if p in stage {
      assert k in FilesAfter(st, stage, stage.Keys) && k.path == p;
    }
  }

  lemma UninstalledAt(st: State, a: nat, done: set<Path>, p: Path)
    requires p in st.disk && (Swept(st, a, done, p) <==> Removed(st, a, p))
    requires p !in done ==> Reverted(st, a, p) == Get(st.disk, p)
    ensures Get(UninstallDisk(st, a, done), p) == Reverted(st, a, p)
  {
  }

  lemma UnstagedStays(st: State, stage: Disk, done: set<Path>, active: bool, p: Path)
    requires RowsKnown(st)
    ensures var mid, a := PartialInstall(st, stage, done, active), ArchiveSerial(st);
      p !in PathsOf(mid.files, a) ==> Reverted(mid, a, p) == Get(mid.disk, p)
  {
    ArchivePaths(st, stage, p);
    if p !in stage {
      RevertedUnplaced(st, stage, done, active, p);
    }
  }

  lemma RevertedPlacedNew(st: State, stage: Disk, done: set<Path>, active: bool, p: Path)
    requires RowsKnown(st) && TreeClosed(st.disk) && Extracted(stage) && !Conflict(st, stage)
    requires p in PartialInstall(st, stage, done, active).disk && p !in st.disk
    ensures Reverted(PartialInstall(st, stage, done, active), ArchiveSerial(st), p) == None
  {
    PlacedComesBack(st, stage, done, active, p);
  }

  /** The repair sweeps away exactly what it removes file by file. */
  lemma RepairSweeps(st: State, stage: Disk, done: set<Path>, active: bool, p: Path)
    requires RowsKnown(st) && TreeClosed(st.disk) && Extracted(stage) && !Conflict(st, stage)
    requires p in PartialInstall(st, stage, done, active).disk
    ensures var mid, a := PartialInstall(st, stage, done, active), ArchiveSerial(st);
      Swept(mid, a, PathsOf(mid.files, a), p) <==> Removed(mid, a, p)
  {
    var mid, a := PartialInstall(st, stage, done, active), ArchiveSerial(st);
    var paths := PathsOf(mid.files, a);
    if Swept(mid, a, paths, p) {
      var d :| d in paths && Removed(mid, a, d) && (d == p || Ancestor(d, p));
      RemovedWasNew(st, stage, done, active, d);
      if d != p {
        assert p !in st.disk;
        RevertedPlacedNew(st, stage, done, active, p);
      }
    }
    if Removed(mid, a, p) {
      RemovedWasNew(st, stage, done, active, p);
      ArchivePaths(st, stage, p);
    }
  }

  lemma RepairedAt(st: State, stage: Disk, done: set<Path>, active: bool, p: Path)
    requires RowsKnown(st) && TreeClosed(st.disk) && Extracted(stage) && !Conflict(st, stage)
    ensures var mid, a := PartialInstall(st, stage, done, active), ArchiveSerial(st);
      Get(UninstallDisk(mid, a, PathsOf(mid.files, a)), p) == Reverted(mid, a, p)
  {
    var mid, a := PartialInstall(st, stage, done, active), ArchiveSerial(st);
    if p in mid.disk {
      UnstagedStays(st, stage, done, active, p);
      RepairSweeps(st, stage, done, active, p);
      UninstalledAt(mid, a, PathsOf(mid.files, a), p);
    }
  }

  lemma RepairedDisk(st: State, stage: Disk, done: set<Path>, active: bool)
    ensures var mid, a := PartialInstall(st, stage, done, active), ArchiveSerial(st);
      Uninstall(mid, a).disk == UninstallDisk(mid, a, PathsOf(mid.files, a))
  {
    assert Installed(PartialInstall(st, stage, done, active), ArchiveSerial(st));
  }

  lemma RepairedPath(st: State, stage: Disk, done: set<Path>, active: bool, p: Path)
    requires RowsKnown(st) && TreeClosed(st.disk) && Extracted(stage) && !Conflict(st, stage)
    requires done <= stage.Keys
    ensures (Get(Uninstall(PartialInstall(st, stage, done, active), ArchiveSerial(st)).disk, p) == Get(st.disk, p))
        <==> (p in done ==> SafeAt(st, stage, p))
  {
    RepairedDisk(st, stage, done, active);
    RepairedAt(st, stage, done, active, p);
    if p in done {
      PlacedComesBack(st, stage, done, active, p);
    } else {
      RevertedUnplaced(st, stage, done, active, p);
    }
  }

  lemma EqualDisks(a: Disk, b: Disk)
    ensures a == b <==> forall p :: Get(a, p) == Get(b, p)
  {
    if forall p :: Get(a, p) == Get(b, p) {
      SameDisk(a, b);
    }
  }

  /** Uninstalling repairs a partial install: with rows and backups committed and any subset
      of the files in place, the disk is again what it was before the install, exactly when
      every placed file is safe. */
  lemma UninstallRepairs(st: State, stage: Disk, done: set<Path>, active: bool)
    requires RowsKnown(st) && TreeClosed(st.disk) && Extracted(stage) && !Conflict(st, stage)
    requires done <= stage.Keys
    ensures Uninstall(PartialInstall(st, stage, done, active), ArchiveSerial(st)).disk == st.disk
      <==> forall p :: p in done ==> SafeAt(st, stage, p)
  {
    var after := Uninstall(PartialInstall(st, stage, done, active), ArchiveSerial(st)).disk;
    forall p
      ensures Get(after, p) == Get(st.disk, p) <==> (p in done ==> SafeAt(st, stage, p))
    {
      RepairedPath(st, stage, done, active, p);
    }
    EqualDisks(after, st.disk);
  }

  /** From any depot in order, edited or not, installing a root and uninstalling it again is
      the identity on disk exactly when every staged file is safe. */
  lemma InstallThenUninstall(st: State, stage: Disk)
    requires RowsKnown(st) && TreeClosed(st.disk) && Extracted(stage)
    ensures Uninstall(Install(st, stage), ArchiveSerial(st)).disk == st.disk
      <==> Conflict(st, stage) || forall p :: p in stage ==> SafeAt(st, stage, p)
  {
    if Conflict(st, stage) {
      assert !Installed(st, ArchiveSerial(st));
    } else {
      UninstallRepairs(st, stage, stage.Keys, true);
    }
  }

  // ------------------------------------------------------------- uninstalls that fail

  /** The first staged path in column order was placed, over bytes that are not in store. */
  ghost predicate FirstLacksBytes(st: State, stage: Disk, done: set<Path>) {
    exists p :: IsFirst(p, stage.Keys) && p in done && p in st.disk && CaseAt(st, stage, p).BytesMissing()
  }

  lemma PlacedLacksBytes(st: State, stage: Disk, done: set<Path>, active: bool, p: Path)
    requires RowsKnown(st) && TreeClosed(st.disk) && Extracted(stage) && !Conflict(st, stage)
    requires p in stage && p in done
    ensures LacksBytes(PartialInstall(st, stage, done, active), ArchiveSerial(st), p)
      <==> p in st.disk && CaseAt(st, stage, p).BytesMissing()
  {
    PlacedIsCurrent(st, stage, done, active, p);
    LaidOver(st, stage, p);
    if ParentSaved(st, stage, stage.Keys, p) {
      ParentsExist(st, stage, p);
      assert stage[p].Dir?;
    }
    if p in st.disk {
      StagedKind(st, stage, p);
      BytesNeeded(CaseAt(st, stage, p));
    }
  }

  lemma UnplacedHasBytes(st: State, stage: Disk, done: set<Path>, active: bool, p: Path)
    requires RowsKnown(st) && p in stage && p !in done
    ensures !LacksBytes(PartialInstall(st, stage, done, active), ArchiveSerial(st), p)
  {
    ArchiveRowIsStaged(st, stage, p);
    LaidOver(st, stage, p);
  }

  lemma StagedLacksBytes(st: State, stage: Disk, done: set<Path>, active: bool, p: Path)
    requires RowsKnown(st) && TreeClosed(st.disk) && Extracted(stage) && !Conflict(st, stage)
    requires p in stage
    ensures LacksBytes(PartialInstall(st, stage, done, active), ArchiveSerial(st), p)
      <==> p in done && p in st.disk && CaseAt(st, stage, p).BytesMissing()
  {
    if p in done {
      PlacedLacksBytes(st, stage, done, active, p);
    } else {
      UnplacedHasBytes(st, stage, done, active, p);
    }
  }

  lemma AllArchivePaths(st: State, stage: Disk)
    requires RowsKnown(st)
    ensures PathsOf(FilesAfter(st, stage, stage.Keys), ArchiveSerial(st)) == stage.Keys
  {
    forall p
      ensures p in PathsOf(FilesAfter(st, stage, stage.Keys), ArchiveSerial(st)) <==> p in stage
    {
      ArchivePaths(st, stage, p);
    }
  }

  /** Repairing an install fails exactly when the first staged path was placed over a file
      whose bytes are not in store; the failures of all other files go unnoticed. */
  lemma RepairFails(st: State, stage: Disk, done: set<Path>, active: bool)
    requires RowsKnown(st) && TreeClosed(st.disk) && Extracted(stage) && !Conflict(st, stage)
    ensures UninstallFails(PartialInstall(st, stage, done, active), ArchiveSerial(st))
      <==> FirstLacksBytes(st, stage, done)
  {
    AllArchivePaths(st, stage);
    forall p | p in stage
      ensures LacksBytes(PartialInstall(st, stage, done, active), ArchiveSerial(st), p)
        <==> p in done && p in st.disk && CaseAt(st, stage, p).BytesMissing()
    {
      StagedLacksBytes(st, stage, done, active, p);
    }
  }

  lemma RoundTripFails(st: State, stage: Disk)
    requires RowsKnown(st) && TreeClosed(st.disk) && Extracted(stage) && !Conflict(st, stage)
    ensures UninstallFails(Install(st, stage), ArchiveSerial(st)) <==> FirstLacksBytes(st, stage, stage.Keys)
  {
    RepairFails(st, stage, stage.Keys, true);
  }

  /** Directories come first in the path column, so that only a root whose first path is a
      file right below the prefix can fail to be uninstalled. */
  lemma OnlyTopLevelFilesFail(st: State, a: nat, p: Path)
    requires Tables(st) && Installed(st, a)
    requires IsFirst(p, PathsOf(st.files, a)) && LacksBytes(st, a, p)
    ensures |p| == 1 && IsData(Some(st.disk[p]))
    ensures forall q :: Key(a, q) in st.files ==> !Ancestor(p, q)
  {
    assert KindAgrees(st.files, Key(a, p));
    if |p| > 1 {
      assert Ancestor(p[..1], p);
      assert Key(a, p[..1]).path in PathsOf(st.files, a);
      NothingAboveFirst(p, p[..1], PathsOf(st.files, a));
    }
  }

  // ------------------------------------------------------------- rows after the round trip

  /** The row table after install and uninstall: the rollback rows that stay are base-system
      rows and saved directories or attributes, and the only older row that can go is the
      latest one, when it records absence or user data that is back on disk. */
  ghost function RowAfterRoundTrip(st: State, stage: Disk, k: Key): Option<Row> {
    if k.path in stage && k.arch == RollbackSerial(st) then
      var row := RollbackRow(st, stage, stage.Keys, k.path);
      if row.Some? && !GoesAlong(row.value) then row else None
    else if k.path in stage && RollbackRow(st, stage, stage.Keys, k.path).None?
            && Preceding(st.files, k.path, st.next) == Some(k.arch) && GoesAlong(st.files[k]) then
      None
    else
      RowAt(st.files, k)
  }

  lemma UninstalledRows(st: State, a: nat)
    requires Installed(st, a)
    ensures Uninstall(st, a).files == if UninstallFails(st, a) then st.files else RemainingFiles(st, a)
  {
  }

  lemma RemainingRow(st: State, a: nat, k: Key)
    ensures RowAt(RemainingFiles(st, a), k) ==
      if k.arch == a || Discarded(st, a, k) then None else RowAt(st.files, k)
  {
  }

  lemma CurrentAfterInstall(st: State, stage: Disk, p: Path)
    requires RowsKnown(st) && !Conflict(st, stage)
    requires p in stage ==> Get(InstallDisk(st, stage, stage.Keys), p) == Some(stage[p])
    ensures Current(Install(st, stage), ArchiveSerial(st), p) <==> p in stage
  {
    RowsAfterInstall(st, stage, stage.Keys, Key(ArchiveSerial(st), p));
    FreshSerials(st, ArchiveSerial(st), p);
    NewestIsArchive(st, stage, p);
    assert Install(st, stage).disk == InstallDisk(st, stage, stage.Keys);
  }

  /** The row of the round trip that goes along with the archive's own: the one right below. */
  lemma DiscardedAfterInstall(st: State, stage: Disk, k: Key)
    requires RowsKnown(st) && !Conflict(st, stage)
    requires k.path in stage ==> Get(InstallDisk(st, stage, stage.Keys), k.path) == Some(stage[k.path])
    ensures Discarded(Install(st, stage), ArchiveSerial(st), k) <==>
      k.path in stage &&
        match RollbackRow(st, stage, stage.Keys, k.path)
        case Some(row) => k.arch == RollbackSerial(st) && GoesAlong(row)
        case None => Preceding(st.files, k.path, st.next) == Some(k.arch) && GoesAlong(st.files[k])
  {
    CurrentAfterInstall(st, stage, k.path);
    if k.path in stage {
      NewPreceding(st, stage, k.path);
      assert k == Key(k.arch, k.path);
    }
  }

  lemma RemainingAfterInstall(st: State, stage: Disk, k: Key)
    requires RowsKnown(st) && !Conflict(st, stage)
    requires k.path in stage ==> Get(InstallDisk(st, stage, stage.Keys), k.path) == Some(stage[k.path])
    ensures RowAt(RemainingFiles(Install(st, stage), ArchiveSerial(st)), k) == RowAfterRoundTrip(st, stage, k)
  {
    RemainingRow(Install(st, stage), ArchiveSerial(st), k);
    RowsAfterInstall(st, stage, stage.Keys, k);
    DiscardedAfterInstall(st, stage, k);
    FreshSerials(st, ArchiveSerial(st), k.path);
  }

  /** What the tables hold after the round trip: all rows of the install when the uninstall
      fails, else the rows of RowAfterRoundTrip. */
  lemma RowsComeBack(st: State, stage: Disk, k: Key)
    requires RowsKnown(st) && TreeClosed(st.disk) && Extracted(stage) && !Conflict(st, stage)
    requires forall p :: p in stage ==> Get(InstallDisk(st, stage, stage.Keys), p) == Some(stage[p])
    ensures RowAt(Uninstall(Install(st, stage), ArchiveSerial(st)).files, k) ==
      if FirstLacksBytes(st, stage, stage.Keys) then RowAfter(st, stage, stage.Keys, k)
      else RowAfterRoundTrip(st, stage, k)
  {
    RoundTripFails(st, stage);
    UninstalledRows(Install(st, stage), ArchiveSerial(st));
    RowsAfterInstall(st, stage, stage.Keys, k);
    RemainingAfterInstall(st, stage, k);
  }

  lemma NewRollbackArchive(st: State, stage: Disk, s: nat)
    requires RowsKnown(st) && !Conflict(st, stage)
    ensures s in Install(st, stage).archives <==>
      s in st.archives || s == ArchiveSerial(st) || (s == RollbackSerial(st) && RollbackNeeded(st, stage))
    ensures HasRows(Install(st, stage).files, RollbackSerial(st)) ==> RollbackNeeded(st, stage)
  {
    var r := RollbackSerial(st);
    if p :| Key(r, p) in FilesAfter(st, stage, stage.Keys) {
      RowsAfterInstall(st, stage, stage.Keys, Key(r, p));
      FreshSerials(st, r, p);
      RollbackArchiveKnown(st, stage, p);
    }
  }

  lemma SomethingSaved(st: State, stage: Disk)
    ensures Saved(st, stage) != map[] <==> exists p :: p in stage && p in st.disk && VerdictAt(st, stage, p).saved
  {
    if p :| p in stage && p in st.disk && VerdictAt(st, stage, p).saved {
      assert p in Saved(st, stage);
    }
    if Saved(st, stage) != map[] {
      var p :| p in Saved(st, stage);
    }
  }

  /** An install keeps all stores, adds the root's, and adds the rollback archive's exactly if something
      was copied into it. */
  lemma StoresAfterInstall(st: State, stage: Disk, s: nat)
    requires RowsKnown(st) && !Conflict(st, stage)
    ensures s in Install(st, stage).store <==>
      || s in st.store
      || s == st.next + 1
      || (s == st.next && exists p :: p in stage && p in st.disk && VerdictAt(st, stage, p).saved)
    ensures s in st.store ==> Install(st, stage).store[s] == st.store[s]
  {
    SomethingSaved(st, stage);
    assert Install(st, stage).store == InstallStore(st, stage);
    StoresGrow(st.store, st.next, Saved(st, stage), stage, s);
    assert s in st.store ==> s < st.next;
  }

  lemma StoresGrow(store: Store, r: nat, saved: map<Path, Node>, stage: Disk, s: nat)
    ensures var after := (if saved != map[] then store[r := saved] else store)[r + 1 := stage];
      && (s in after <==> s in store || s == r + 1 || (s == r && saved != map[]))
      && (s in store && s < r ==> after[s] == store[s])
  {
  }

  ghost predicate HasRowAfterRoundTrip(st: State, stage: Disk, s: nat) {
    exists p :: RowAfterRoundTrip(st, stage, Key(s, p)).Some?
  }

  /** After the round trip the archives listed are the old ones and the rollback archive, as far as
      they still have rows. */
  lemma ArchivesComeBack(st: State, stage: Disk, s: nat)
    requires RowsKnown(st) && TreeClosed(st.disk) && Extracted(stage) && !Conflict(st, stage)
    requires forall p :: p in stage ==> Get(InstallDisk(st, stage, stage.Keys), p) == Some(stage[p])
    requires !FirstLacksBytes(st, stage, stage.Keys)
    ensures s in Uninstall(Install(st, stage), ArchiveSerial(st)).archives <==>
      (s in st.archives || s == RollbackSerial(st)) && HasRowAfterRoundTrip(st, stage, s)
  {
    var mid, a := Install(st, stage), ArchiveSerial(st);
    RoundTripFails(st, stage);
    ArchivesLeft(mid, a, s);
    NewRollbackArchive(st, stage, s);
    forall p
      ensures RowAt(Uninstall(mid, a).files, Key(s, p)) == RowAfterRoundTrip(st, stage, Key(s, p))
    {
      RowsComeBack(st, stage, Key(s, p));
    }
    if s == RollbackSerial(st) && HasRowAfterRoundTrip(st, stage, s) {
      RollbackRowsNeedArchive(st, stage);
    }
  }

  lemma RollbackRowsNeedArchive(st: State, stage: Disk)
    requires RowsKnown(st) && HasRowAfterRoundTrip(st, stage, RollbackSerial(st))
    ensures RollbackNeeded(st, stage)
  {
    var p :| RowAfterRoundTrip(st, stage, Key(RollbackSerial(st), p)).Some?;
    FreshSerials(st, RollbackSerial(st), p);
    RollbackArchiveKnown(st, stage, p);
  }

  /** The rollback row at p outlives the archive: it is a base-system row, or records something
      other than user data. */
  ghost predicate RowOutlives(st: State, stage: Disk, p: Path) {
    p in stage &&
      match RollbackRow(st, stage, stage.Keys, p)
      case None => false
      case Some(row) => row.base || (row.node.Some? && !row.saved)
  }

  lemma FailedRoundTripKeeps(st: State, stage: Disk)
    requires RowsKnown(st) && TreeClosed(st.disk) && Extracted(stage) && !Conflict(st, stage)
    requires FirstLacksBytes(st, stage, stage.Keys)
    ensures RollbackSerial(st) in Uninstall(Install(st, stage), ArchiveSerial(st)).archives <==>
      exists p :: p in stage && VerdictAt(st, stage, p).record
  {
    RoundTripFails(st, stage);
    ArchivesKept(Install(st, stage), ArchiveSerial(st), RollbackSerial(st));
    NewRollbackArchive(st, stage, RollbackSerial(st));
  }

  lemma OutlivingRow(st: State, stage: Disk, p: Path)
    requires RowsKnown(st)
    ensures RowAfterRoundTrip(st, stage, Key(RollbackSerial(st), p)).Some? <==> RowOutlives(st, stage, p)
  {
    FreshSerials(st, RollbackSerial(st), p);
  }

  /** The rollback archive stays in the list exactly if the uninstall failed and it was there, or one
      of its rows outlives the archive. */
  lemma RollbackArchiveStays(st: State, stage: Disk)
    requires RowsKnown(st) && TreeClosed(st.disk) && Extracted(stage) && !Conflict(st, stage)
    requires forall p :: p in stage ==> Get(InstallDisk(st, stage, stage.Keys), p) == Some(stage[p])
    ensures RollbackSerial(st) in Uninstall(Install(st, stage), ArchiveSerial(st)).archives <==>
      if FirstLacksBytes(st, stage, stage.Keys) then exists p :: p in stage && VerdictAt(st, stage, p).record
      else exists p :: RowOutlives(st, stage, p)
  {
    var r := RollbackSerial(st);
    if FirstLacksBytes(st, stage, stage.Keys) {
      FailedRoundTripKeeps(st, stage);
    } else {
      ArchivesComeBack(st, stage, r);
      forall p
        ensures RowAfterRoundTrip(st, stage, Key(r, p)).Some? <==> RowOutlives(st, stage, p)
      {
        OutlivingRow(st, stage, p);
      }
    }
  }

  // ------------------------------------------------------------- backups

  /** Every recorded file and link can be restored. */
  ghost predicate FullyBacked(st: State) {
    forall k :: k in st.files && IsData(st.files[k].node) ==>
      StoredCopy(st.store, k.arch, k.path) == st.files[k].node
  }

  /** An edited file differs in data or existence from its latest record, and in data from
      the file about to replace it. */
  predicate EditIsSaved(file: Node, actual: Option<Node>, row: Option<Row>) {
    IsData(actual) && row.Some? && row.value.node != actual ==>
      && (row.value.node.None? || !SameKind(row.value.node.value, actual.value) ||
        DigestOf(row.value.node) != DigestOf(actual))
      && DigestOf(Some(file)) != DigestOf(actual)
  }

  lemma BareRow(file: Node, actual: Option<Node>, row: Option<Row>)
    requires !Analyze(file, actual, row).conflict && IsData(actual)
    ensures Analyze(file, actual, row).record && !Analyze(file, actual, row).saved <==> !EditIsSaved(file, actual, row)
  {
    CompareIdentical(Some(file), actual);
    if row.Some? {
      CompareIdentical(actual, row.value.node);
    }
  }

  lemma NewRollbackRestorable(st: State, stage: Disk, p: Path, row: Row)
    requires RowsKnown(st) && Extracted(stage) && !Conflict(st, stage) && p in stage
    requires EditIsSaved(stage[p], Get(st.disk, p), PrecedingRow(st.files, p, st.next))
    requires RollbackRow(st, stage, stage.Keys, p) == Some(row) && IsData(row.node)
    ensures StoredCopy(InstallStore(st, stage), RollbackSerial(st), p) == row.node
  {
    CopyOfRollback(st, stage, p);
    assert !VerdictAt(st, stage, p).conflict;
    if VerdictAt(st, stage, p).record {
      BareRow(stage[p], Get(st.disk, p), PrecedingRow(st.files, p, st.next));
    }
  }

  lemma NewRowRestorable(st: State, stage: Disk, k: Key, row: Row)
    requires RowsKnown(st) && FullyBacked(st) && Extracted(stage) && !Conflict(st, stage)
    requires k.path in stage ==>
        EditIsSaved(stage[k.path], Get(st.disk, k.path), PrecedingRow(st.files, k.path, st.next))
    requires RowAfter(st, stage, stage.Keys, k) == Some(row) && IsData(row.node)
    ensures StoredCopy(InstallStore(st, stage), k.arch, k.path) == row.node
  {
    if k.path in stage && k.arch == RollbackSerial(st) {
      NewRollbackRestorable(st, stage, k.path, row);
    } else if k.path in stage && k.arch == ArchiveSerial(st) {
    } else {
      assert StoredCopy(st.store, k.arch, k.path) == st.files[k].node;
    }
  }

  /** An install keeps every row restorable exactly when all edits under it were data edits. */
  lemma InstallBacksUp(st: State, stage: Disk)
    requires Tables(st) && FullyBacked(st) && Extracted(stage) && !Conflict(st, stage)
    ensures FullyBacked(Install(st, stage)) <==>
      forall p :: p in stage ==> EditIsSaved(stage[p], Get(st.disk, p), PrecedingRow(st.files, p, st.next))
  {
    var after := Install(st, stage);
    if forall p :: p in stage ==> EditIsSaved(stage[p], Get(st.disk, p), PrecedingRow(st.files, p, st.next)) {
      forall k | k in after.files && IsData(after.files[k].node)
        ensures StoredCopy(after.store, k.arch, k.path) == after.files[k].node
      {
        RowsAfterInstall(st, stage, stage.Keys, k);
        NewRowRestorable(st, stage, k, after.files[k]);
      }
    } else {
      var p :| p in stage && !EditIsSaved(stage[p], Get(st.disk, p), PrecedingRow(st.files, p, st.next));
      var k := Key(RollbackSerial(st), p);
      assert !VerdictAt(st, stage, p).conflict;
      BareRow(stage[p], Get(st.disk, p), PrecedingRow(st.files, p, st.next));
      RowsAfterInstall(st, stage, stage.Keys, k);
      CopyOfRollback(st, stage, p);
      assert k in after.files && IsData(after.files[k].node);
    }
  }

  lemma RestorableRow(st: State, k: Key)
    requires FullyBacked(st) && k in st.files && IsData(st.files[k].node)
    ensures StoredCopy(st.store, k.arch, k.path) == st.files[k].node
  {
  }

  lemma NeededBytesAreThere(st: State, a: nat, p: Path)
    requires FullyBacked(st) && Key(a, p) in st.files && st.files[Key(a, p)].node.Some? &&
        KindAgrees(st.files, Key(a, p))
    ensures !LacksBytes(st, a, p)
  {
    if LacksBytes(st, a, p) {
      var k := Key(Preceding(st.files, p, a).value, p);
      RestorableRow(st, k);
    }
  }

  /** With every row restorable, every uninstall succeeds. */
  lemma BackedUninstallSucceeds(st: State, a: nat)
    requires Tables(st) && FullyBacked(st) && Installed(st, a)
    ensures !UninstallFails(st, a)
  {
    forall p | Key(a, p) in st.files
      ensures !LacksBytes(st, a, p)
    {
      assert KindAgrees(st.files, Key(a, p));
      NeededBytesAreThere(st, a, p);
    }
  }

  /** Pruning drops an archive's store together with its last row. */
  lemma PruneKeepsBackups(st: State, a: nat)
    requires FullyBacked(st)
    ensures FullyBacked(Uninstall(st, a))
  {
    var after := Uninstall(st, a);
    forall k | k in after.files && IsData(after.files[k].node)
      ensures StoredCopy(after.store, k.arch, k.path) == after.files[k].node
    {
      assert StoredCopy(st.store, k.arch, k.path) == st.files[k].node;
    }
  }

  ghost predicate EditsAreSaved(st: State, step: Step) {
    step.DoInstall? ==>
      forall p :: p in step.stage ==>
        EditIsSaved(step.stage[p], Get(st.disk, p), PrecedingRow(st.files, p, st.next))
  }

  ghost predicate RunSavesEdits(st: State, steps: seq<Step>)
    decreases |steps|
  {
    steps != [] ==>
      StepAllowed(steps[0]) && EditsAreSaved(st, steps[0]) && RunSavesEdits(Next(st, steps[0]), steps[1..])
  }

  /** With data edits and deletions between operations, every row stays restorable. */
  lemma {:induction false} RunKeepsBackups(st: State, steps: seq<Step>)
    requires Valid(st) && FullyBacked(st) && RunSavesEdits(st, steps)
    ensures Valid(Run(st, steps)) && FullyBacked(Run(st, steps))
    ensures forall a :: Installed(Run(st, steps), a) ==> !UninstallFails(Run(st, steps), a)
    decreases |steps|
  {
    if steps == [] {
      forall a | Installed(st, a)
        ensures !UninstallFails(st, a)
      {
        BackedUninstallSucceeds(st, a);
      }
    } else {
      RunKeepsValid(st, [steps[0]]);
      assert Run(st, [steps[0]]) == Run(Next(st, steps[0]), []) == Next(st, steps[0]);
      match steps[0] {
        case DoInstall(stage) =>
          if !Conflict(st, stage) {
            InstallBacksUp(st, stage);
          }
        case DoUninstall(serial) => PruneKeepsBackups(st, serial);
        case UserEdit(disk) =>
      }
      RunKeepsBackups(Next(st, steps[0]), steps[1..]);
    }
  }

  // ------------------------------------------------------------- the failures are real

  const READABLE := Meta(0x1A4, 0, 0)
  const PRIVATE := Meta(0x180, 0, 0)

  lemma PlainNames(p: Path)
    requires forall i :: 0 <= i < |p| ==> |p[i]| < |DEPOT_NAME|
    ensures !MentionsDepot(p)
  {
  }

  /** After the first root on a fresh system, its own rows are the latest ones. */
  lemma AfterFirstRoot(base: Disk, stage: Disk, p: Path)
    requires TreeClosed(base) && !Conflict(Fresh(base), stage)
    ensures PrecedingRow(Install(Fresh(base), stage).files, p, 3) ==
      if p in stage then Some(Row(Some(stage[p]), false, VerdictAt(Fresh(base), stage, p).install, false)) else None
  {
    var st := Fresh(base);
    var files := FilesAfter(st, stage, stage.Keys);
    RowsAfterInstall(st, stage, stage.Keys, Key(2, p));
    if p in stage {
      PrecedingIs(files, p, 3, 2);
    } else {
      forall t: nat | t < 3
        ensures Key(t, p) !in files
      {
        RowsAfterInstall(st, stage, stage.Keys, Key(t, p));
      }
      PrecedingNone(files, p, 3);
    }
  }

  lemma AgreeingFile(file: Node, actual: Option<Node>)
    requires actual == None || actual == Some(file)
    ensures !Analyze(file, actual, None).conflict
    ensures Placed(file, actual, Analyze(file, actual, None).install) == file
  {
    CompareIdentical(Some(file), actual);
  }

  /** The first root on a system it agrees with. */
  lemma FirstRoot(base: Disk, first: Disk)
    requires Extracted(first)
    requires forall p :: p in first ==> !MentionsDepot(p)
    requires forall p :: p in first && p in base ==> base[p] == first[p]
    ensures !Conflict(Fresh(base), first)
    ensures InstallDisk(Fresh(base), first, first.Keys) == base + first
  {
    var st := Fresh(base);
    forall p | p in first
      ensures VerdictAt(st, first, p) == Analyze(first[p], Get(base, p), None)
      ensures !Analyze(first[p], Get(base, p), None).conflict
      ensures Placed(first[p], Get(base, p), Analyze(first[p], Get(base, p), None).install) == first[p]
    {
      PrecedingNone(map[], p, 1);
      AgreeingFile(first[p], Get(base, p));
    }
  }

  lemma OneDirectory(d: Path, f: Path, disk: Disk)
    requires d == ["d"] && f == ["d", "f"]
    requires disk.Keys <= {d, f} && d in disk && disk[d].Dir?
    ensures TreeClosed(disk) && Ancestor(d, f)
    ensures !MentionsDepot(d) && !MentionsDepot(f)
  {
    PlainNames(d);
    PlainNames(f);
    forall a | Ancestor(a, f)
      ensures a == d
    {
      assert |a| == 1 && a == f[..1];
    }
  }

  lemma FirstRows(d: Path, f: Path, first: Disk, base: Disk)
    requires d != f && first == map[d := Dir(READABLE)]
    requires TreeClosed(base) && !Conflict(Fresh(base), first)
    ensures var rows := Install(Fresh(base), first).files;
      && PrecedingRow(rows, d, 3).Some? && PrecedingRow(rows, d, 3).value.node == Some(Dir(READABLE))
      && PrecedingRow(rows, f, 3).None?
  {
    AfterFirstRoot(base, first, d);
    AfterFirstRoot(base, first, f);
  }

  lemma TightenedDirectory(st: State, d: Path, f: Path, second: Disk)
    requires RowsKnown(st) && TreeClosed(st.disk) && Ancestor(d, f) && !MentionsDepot(d) && !MentionsDepot(f)
    requires st.disk == map[d := Dir(READABLE), f := Reg(1, READABLE)]
    requires second == map[d := Dir(PRIVATE), f := Reg(2, READABLE)] && Extracted(second)
    requires PrecedingRow(st.files, d, st.next).Some? &&
        PrecedingRow(st.files, d, st.next).value.node == Some(Dir(READABLE))
    requires PrecedingRow(st.files, f, st.next).None?
    ensures Uninstall(Install(st, second), ArchiveSerial(st)).disk != st.disk
  {
    assert SavesParents(st, second, f);
    assert ParentSaved(st, second, second.Keys, d);
    assert CaseAt(st, second, d).SavesWrongDir();
    assert !SafeAt(st, second, d);
    assert !Conflict(st, second);
    InstallThenUninstall(st, second);
  }

  /** A root that only tightens a directory already known, and replaces a file in it that is
      not, leaves the directory tightened after it is uninstalled. */
  lemma DirectoryAttributesAreLost(d: Path, f: Path, first: Disk, second: Disk, base: Disk)
    requires d == ["d"] && f == ["d", "f"]
    requires base == map[d := Dir(READABLE), f := Reg(1, READABLE)]
    requires first == map[d := Dir(READABLE)]
    requires second == map[d := Dir(PRIVATE), f := Reg(2, READABLE)]
    ensures TreeClosed(base) && Extracted(first) && Extracted(second)
    ensures var st := Install(Fresh(base), first);
      Uninstall(Install(st, second), ArchiveSerial(st)).disk != st.disk
  {
    OneDirectory(d, f, base);
    OneDirectory(d, f, first);
    OneDirectory(d, f, second);
    FirstRoot(base, first);
    FirstRows(d, f, first, base);
    InstallKeepsRowsKnown(Fresh(base), first, first.Keys, true);
    assert base + first == base;
    TightenedDirectory(Install(Fresh(base), first), d, f, second);
  }

  lemma OneFile(f: Path, disk: Disk)
    requires |f| == 1 && |f[0]| < |DEPOT_NAME| && disk.Keys == {f}
    ensures TreeClosed(disk) && !MentionsDepot(f) && IsFirst(f, disk.Keys)
  {
    PlainNames(f);
    LeqTotal(PathText(f), PathText(f));
  }

  /** A root brought the file, and the user changed its permissions. */
  lemma ChangedPermissions(f: Path, first: Disk, edited: Disk)
    requires |f| == 1 && |f[0]| < |DEPOT_NAME|
    requires first == map[f := Reg(1, READABLE)]
    requires edited == map[f := Reg(1, PRIVATE)]
    ensures Extracted(first) && TreeClosed(edited)
    ensures var st := Install(Fresh(map[]), first).(disk := edited);
      && RowsKnown(st) && st.next == 3
      && PrecedingRow(st.files, f, 3).Some? && PrecedingRow(st.files, f, 3).value.node == Some(Reg(1, READABLE))
  {
    OneFile(f, edited);
    OneFile(f, first);
    FirstRoot(map[], first);
    AfterFirstRoot(map[], first, f);
    InstallKeepsRowsKnown(Fresh(map[]), first, first.Keys, true);
  }

  /** A root of one file, over a file whose bytes are not in store. */
  lemma ReplacedFile(st: State, f: Path, root: Disk)
    requires RowsKnown(st) && TreeClosed(st.disk) && Extracted(root)
    requires root.Keys == {f} && f in st.disk && IsFirst(f, root.Keys) && !MentionsDepot(f)
    requires SameKind(root[f], st.disk[f]) && CaseAt(st, root, f).BytesMissing()
    ensures Uninstall(Install(st, root), ArchiveSerial(st)).disk != st.disk
    ensures UninstallFails(Install(st, root), ArchiveSerial(st))
  {
    ConflictIsKind(root[f], Get(st.disk, f), PrecedingRow(st.files, f, st.next));
    assert !Conflict(st, root);
    assert !SafeAt(st, root, f);
    InstallThenUninstall(st, root);
    assert FirstLacksBytes(st, root, root.Keys);
    RoundTripFails(st, root);
  }

  /** A file whose permissions the user changed is not brought back when a root replaces its
      contents and is uninstalled; the uninstall fails, and the root stays listed. */
  lemma EditedPermissionsAreLost(f: Path, first: Disk, edited: Disk, second: Disk)
    requires f == ["f"]
    requires first == map[f := Reg(1, READABLE)]
    requires edited == map[f := Reg(1, PRIVATE)]
    requires second == map[f := Reg(2, READABLE)]
    ensures TreeClosed(edited) && Extracted(first) && Extracted(second)
    ensures var st := Install(Fresh(map[]), first).(disk := edited);
      && Uninstall(Install(st, second), ArchiveSerial(st)).disk != st.disk
      && UninstallFails(Install(st, second), ArchiveSerial(st))
  {
    OneFile(f, edited);
    OneFile(f, second);
    ChangedPermissions(f, first, edited);
    var st := Install(Fresh(map[]), first).(disk := edited);
    assert CaseAt(st, second, f).LosesBytes();
    ReplacedFile(st, f, second);
  }

  lemma UnrestorableFile(st: State, f: Path, root: Disk)
    requires f == ["f"] && RowsKnown(st) && st.disk == map[f := Reg(1, PRIVATE)] && root == map[f := Reg(2, READABLE)]
    requires PrecedingRow(st.files, f, st.next).Some?
    requires PrecedingRow(st.files, f, st.next).value.node == Some(Reg(1, PRIVATE)) && OldCopy(st, f).None?
    ensures CaseAt(st, root, f).LacksCopy()
    ensures Uninstall(Install(st, root), ArchiveSerial(st)).disk != st.disk
    ensures UninstallFails(Install(st, root), ArchiveSerial(st))
  {
    OneFile(f, st.disk);
    OneFile(f, root);
    ReplacedFile(st, f, root);
  }

  /** A root that only changes the permissions of a file which the user edited. */
  ghost predicate ChangesPermissions(st: State, f: Path, root: Disk) {
    && RowsKnown(st) && TreeClosed(st.disk) && Extracted(root) && !MentionsDepot(f)
    && st.disk == map[f := Reg(1, PRIVATE)] && root == map[f := Reg(1, READABLE)]
    && PrecedingRow(st.files, f, st.next).Some?
    && PrecedingRow(st.files, f, st.next).value.node == Some(Reg(1, READABLE))
  }

  lemma PermissionsCase(st: State, f: Path, root: Disk)
    requires ChangesPermissions(st, f, root)
    ensures VerdictAt(st, root, f) == Verdict(false, false, false, false, true)
    ensures !Conflict(st, root) && SafeAt(st, root, f) && !FirstLacksBytes(st, root, root.Keys)
    ensures InstallDisk(st, root, root.Keys) == root
    ensures RowAfterRoundTrip(st, root, Key(st.next, f)) == Some(Row(Some(Reg(1, PRIVATE)), false, false, false))
    ensures RowAfterRoundTrip(st, root, Key(st.next + 1, f)) == None
  {
    FreshSerials(st, st.next + 1, f);
  }

  lemma PermissionsRow(st: State, f: Path, root: Disk)
    requires ChangesPermissions(st, f, root)
    ensures var files := Uninstall(Install(st, root), ArchiveSerial(st)).files;
      && Preceding(files, f, st.next + 2) == Some(st.next)
      && files[Key(st.next, f)] == Row(Some(Reg(1, PRIVATE)), false, false, false)
  {
    PermissionsCase(st, f, root);
    RowsComeBack(st, root, Key(st.next, f));
    RowsComeBack(st, root, Key(st.next + 1, f));
    PrecedingIs(Uninstall(Install(st, root), ArchiveSerial(st)).files, f, st.next + 2, st.next);
  }

  lemma PermissionsStored(st: State, f: Path, root: Disk)
    requires ChangesPermissions(st, f, root) && !VerdictAt(st, root, f).saved && !Conflict(st, root)
    requires !UninstallFails(Install(st, root), ArchiveSerial(st))
    ensures var again := Uninstall(Install(st, root), ArchiveSerial(st));
      RowsKnown(again) && again.next == st.next + 2 && StoredCopy(again.store, st.next, f).None?
  {
    InstallKeepsRowsKnown(st, root, root.Keys, true);
    UninstallKeepsRowsKnown(Install(st, root), ArchiveSerial(st));
    CopyOfRollback(st, root, f);
  }

  lemma OnlyPermissions(st: State, f: Path, root: Disk)
    requires ChangesPermissions(st, f, root)
    ensures var again := Uninstall(Install(st, root), ArchiveSerial(st));
      && RowsKnown(again) && again.disk == st.disk
      && PrecedingRow(again.files, f, again.next).Some?
      && PrecedingRow(again.files, f, again.next).value.node == Some(Reg(1, PRIVATE))
      && OldCopy(again, f).None?
  {
    PermissionsCase(st, f, root);
    InstallThenUninstall(st, root);
    PermissionsRow(st, f, root);
    RoundTripFails(st, root);
    PermissionsStored(st, f, root);
  }

  /** A root that only changes permissions, installed over the user's change and uninstalled
      again, leaves a row without bytes behind.  The next root that replaces the contents
      cannot be uninstalled. */
  lemma RecordsWithoutBytes(f: Path, first: Disk, edited: Disk, second: Disk, third: Disk)
    requires f == ["f"]
    requires first == map[f := Reg(1, READABLE)]
    requires edited == map[f := Reg(1, PRIVATE)]
    requires second == map[f := Reg(1, READABLE)]
    requires third == map[f := Reg(2, READABLE)]
    ensures TreeClosed(edited) && Extracted(first) && Extracted(second) && Extracted(third)
    ensures var st := Install(Fresh(map[]), first).(disk := edited);
      var again := Uninstall(Install(st, second), ArchiveSerial(st));
      && again.disk == edited && CaseAt(again, third, f).LacksCopy()
      && Uninstall(Install(again, third), ArchiveSerial(again)).disk != again.disk
      && UninstallFails(Install(again, third), ArchiveSerial(again))
  {
    OneFile(f, edited);
    OneFile(f, second);
    OneFile(f, third);
    ChangedPermissions(f, first, edited);
    var st := Install(Fresh(map[]), first).(disk := edited);
    OnlyPermissions(st, f, second);
    UnrestorableFile(Uninstall(Install(st, second), ArchiveSerial(st)), f, third);
  }

  /** Uninstalling a root that changed the permissions of a link leaves them changed. */
  lemma LinkPermissionsStick(l: Path, base: Disk, root: Disk)
    requires l == ["l"]
    requires base == map[l := Link(1, READABLE)]
    requires root == map[l := Link(1, PRIVATE)]
    ensures TreeClosed(base) && Extracted(root) && CaseAt(Fresh(base), root, l).SticksLink()
    ensures Uninstall(Install(Fresh(base), root), ArchiveSerial(Fresh(base))).disk != base
  {
    OneFile(l, base);
    OneFile(l, root);
    var st := Fresh(base);
    PrecedingNone(map[], l, 1);
    ConflictIsKind(root[l], Get(st.disk, l), PrecedingRow(st.files, l, st.next));
    assert !Conflict(st, root);
    assert !SafeAt(st, root, l);
    InstallThenUninstall(st, root);
  }
}
