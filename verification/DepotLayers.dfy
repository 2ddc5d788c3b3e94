/**
 The promise of darwinup: the system looks like the base system with the installed roots
 laid over it in order, whatever was installed and uninstalled before.
 */
module DepotLayers {
  import opened Wrappers
  import opened FileSystem
  import opened DepotModel
  import opened DepotNames
  import opened DepotInvariant

  // ------------------------------------------------------------- the reference

  /** The installed roots by serial, no rows and no backups; and the paths any root ever had. */
  datatype Layered = Layered(layers: map<nat, Disk>, next: nat, seen: set<Path>)

  /** Before the first root. */
  const NO_LAYERS := Layered(map[], 1, {})

  /** The node at p in the highest layer below s that holds p, else the base system's. */
  function Overlay(base: Disk, layers: map<nat, Disk>, p: Path, s: nat): Option<Node> {
    if s == 0 then Get(base, p)
    else if s - 1 in layers && p in layers[s - 1] then Some(layers[s - 1][p])
    else Overlay(base, layers, p, s - 1)
  }

  ghost function View(base: Disk, l: Layered, p: Path): Option<Node> {
    Overlay(base, l.layers, p, l.next)
  }

  predicate KindDiffers(file: Node, actual: Option<Node>) {
    actual.Some? && !SameKind(file, actual.value)
  }

  ghost predicate Refused(base: Disk, l: Layered, stage: Disk) {
    exists p :: p in stage && (InDepot(p) || KindDiffers(stage[p], View(base, l, p)))
  }

  function Grown(l: Layered, stage: Disk): Layered {
    Layered(l.layers[l.next + 1 := stage], l.next + 2, l.seen + stage.Keys)
  }

  ghost function LayeredStep(base: Disk, l: Layered, step: Step): Layered {
    match step
    case DoInstall(stage) =>
      if Refused(base, l, stage) then l else Grown(l, stage)
    case DoUninstall(serial) => l.(layers := l.layers - {serial})
    case UserEdit(_) => l
  }

  ghost function LayeredRun(base: Disk, l: Layered, steps: seq<Step>): Layered
    decreases |steps|
  {
    if steps == [] then l else LayeredRun(base, LayeredStep(base, l, steps[0]), steps[1..])
  }

  /** Links with one target have one set of permissions, which uninstalling cannot set. */
  predicate SamePerms(n: Node, m: Node) {
    n.Link? && m.Link? && n.data == m.data ==> n.meta.perm == m.meta.perm
  }

  /** The root agrees with every version of a link that uninstalling may bring back. */
  ghost predicate LinksKept(base: Disk, l: Layered, stage: Disk, p: Path)
    requires p in stage
  {
    && (p in base ==> SamePerms(stage[p], base[p]))
    && forall s :: s in l.layers && p in l.layers[s] ==> SamePerms(stage[p], l.layers[s][p])
  }

  /** A staged file that replaces one of the base system for the first time, below a directory that
      an earlier root had: the staged directory is recorded with it. */
  predicate RecordsDir(base: Disk, l: Layered, stage: Disk, d: Path, q: Path) {
    q in stage && q in base && q !in l.seen && d in l.seen && Ancestor(d, q)
  }

  /** No version of the directory differs from the base system's. */
  ghost predicate DirKept(base: Disk, l: Layered, stage: Disk, d: Path) {
    && Get(stage, d) == Get(base, d)
    && forall s :: s in l.layers && d in l.layers[s] ==> Some(l.layers[s][d]) == Get(base, d)
  }

  /** What a root has to respect. */
  ghost predicate Fits(base: Disk, l: Layered, stage: Disk) {
    && (forall p :: p in stage ==> LinksKept(base, l, stage, p))
    && forall d, q :: RecordsDir(base, l, stage, d, q) ==> DirKept(base, l, stage, d)
  }

  ghost predicate StepFits(base: Disk, l: Layered, step: Step) {
    match step
    case DoInstall(stage) => Extracted(stage) && (Refused(base, l, stage) || Fits(base, l, stage))
    case DoUninstall(_) => true
    case UserEdit(_) => false
  }

  ghost predicate RunFits(base: Disk, l: Layered, steps: seq<Step>)
    decreases |steps|
  {
    steps != [] ==> StepFits(base, l, steps[0]) && RunFits(base, LayeredStep(base, l, steps[0]), steps[1..])
  }

  // ------------------------------------------------------------- the invariant

  /** The newest row for p below serial s, or the base system where there is none. */
  function NewestBelow(st: State, base: Disk, p: Path, s: nat): Option<Node> {
    match PrecedingRow(st.files, p, s)
    case None => Get(base, p)
    case Some(row) => row.node
  }

  function Newest(st: State, base: Disk, p: Path): Option<Node> {
    NewestBelow(st, base, p, st.next)
  }

  /** How one row relates to the base system while nobody edits files behind darwinup's back. */
  predicate RowFits(rollback: bool, row: Row, original: Option<Node>) {
    && (row.base ==> row.node == original)
    && (rollback && !row.base ==> original.Some? && original.value.Dir? && row.node == original)
    && (original.Some? && original.value.Dir? ==> row.node.Some? && row.node.value.Dir?)
  }

  ghost predicate RowsFit(st: State, base: Disk)
    requires RowsKnown(st)
  {
    forall k :: k in st.files ==> RowFits(st.archives[k.arch].rollback, st.files[k], Get(base, k.path))
  }

  predicate RowsAgree(j: Row, k: Row) {
    j.node.Some? && k.node.Some? ==> SameKind(j.node.value, k.node.value) && SamePerms(j.node.value, k.node.value)
  }

  /** All versions of a path are of one kind, and links among them can stand for each other. */
  ghost predicate VersionsAgree(files: Files) {
    forall j, k :: j in files && k in files && j.path == k.path ==> RowsAgree(files[j], files[k])
  }

  /** A recorded directory is like every version below it. */
  ghost predicate Repeats(st: State)
    requires RowsKnown(st)
  {
    forall j, k ::
      j in st.files && k in st.files && j.path == k.path && j.arch < k.arch
      && st.archives[k.arch].rollback && !st.files[k].base ==>
        st.files[j].node == st.files[k].node
  }

  ghost predicate DiskFits(st: State, base: Disk) {
    forall p :: Get(st.disk, p) == Newest(st, base, p)
  }

  ghost predicate Undisturbed(st: State, base: Disk) {
    && Valid(st)
    && TreeClosed(base)
    && RowsFit(st, base)
    && VersionsAgree(st.files)
    && Repeats(st)
    && DiskFits(st, base)
  }

  // ------------------------------------------------------------- facts about one path

  lemma RowFacts(st: State, base: Disk, k: Key)
    requires RowsKnown(st) && RowShape(st) && RowsFit(st, base) && k in st.files
    ensures ShapeOk(st.archives[k.arch].rollback, st.files[k])
    ensures RowFits(st.archives[k.arch].rollback, st.files[k], Get(base, k.path))
  {
  }

  /** Only a base-system row can record absence, and then it is the oldest. */
  lemma AbsentIsOldest(st: State, base: Disk, k: Key, t: nat)
    requires Undisturbed(st, base) && k in st.files && st.files[k].node.None?
    ensures st.files[k].base && k.path !in base
    ensures Key(t, k.path) in st.files ==> k.arch <= t
  {
    RowFacts(st, base, k);
  }

  lemma NewestExists(st: State, base: Disk, k: Key)
    requires Undisturbed(st, base)
    requires k in st.files && st.files[k].node.Some?
    ensures Newest(st, base, k.path).Some?
  {
    var t := Preceding(st.files, k.path, st.next).value;
    assert k == Key(k.arch, k.path) && k.arch <= t;
    if t != k.arch && st.files[Key(t, k.path)].node.None? {
      AbsentIsOldest(st, base, Key(t, k.path), k.arch);
    }
  }

  /** A directory of the base system stays one. */
  lemma BaseDirStays(st: State, base: Disk, q: Path)
    requires Undisturbed(st, base)
    requires q in base && base[q].Dir?
    ensures q in st.disk && st.disk[q].Dir?
  {
    assert Get(st.disk, q) == Newest(st, base, q);
    var t := Preceding(st.files, q, st.next);
    if t.Some? {
      assert RowFits(st.archives[t.value].rollback, st.files[Key(t.value, q)], Get(base, q));
    }
  }

  /** Nothing is recorded for a path that is already known. */
  lemma KnownIsNotRecorded(st: State, base: Disk, stage: Disk, p: Path)
    requires DiskFits(st, base) && p in stage
    ensures VerdictAt(st, stage, p).record <==> Preceding(st.files, p, st.next).None?
    ensures VerdictAt(st, stage, p).base <==> Preceding(st.files, p, st.next).None?
  {
    assert Get(st.disk, p) == Newest(st, base, p);
    CompareIdentical(Get(st.disk, p), Get(st.disk, p));
  }

  lemma PlacedIsStaged(file: Node, actual: Option<Node>, recorded: Option<Row>)
    requires !Analyze(file, actual, recorded).conflict && (actual.Some? ==> SamePerms(file, actual.value))
    ensures Placed(file, actual, Analyze(file, actual, recorded).install) == file
  {
    CompareIdentical(Some(file), actual);
  }

  lemma RestoreIsExact(current: Node, preceding: Node, copy: Option<Node>)
    requires SameKind(current, preceding) && SamePerms(current, preceding)
    requires IsData(Some(preceding)) ==> copy == Some(preceding)
    ensures Restore(current, preceding, copy) == preceding
  {
  }

  // ------------------------------------------------------------- installing

  lemma ConflictIsKind(file: Node, actual: Option<Node>, recorded: Option<Row>)
    ensures Analyze(file, actual, recorded).conflict <==> KindDiffers(file, actual)
  {
    CompareIdentical(Some(file), actual);
  }

  ghost predicate Refusable(st: State, stage: Disk, p: Path)
    requires p in stage
  {
    InDepot(p) || KindDiffers(stage[p], Get(st.disk, p))
  }

  /** A root is refused exactly if a path of it names the depot, or it would change the kind of
      something on disk; no row of the tables plays a part.  Any other root is installed. */
  lemma RefusedExactly(st: State, stage: Disk)
    ensures Conflict(st, stage) <==> exists p :: p in stage && Refusable(st, stage, p)
    ensures if Conflict(st, stage) then Install(st, stage) == st
            else Installed(Install(st, stage), ArchiveSerial(st))
  {
    forall p | p in stage
      ensures MentionsDepot(p) || VerdictAt(st, stage, p).conflict <==> Refusable(st, stage, p)
    {
      MentionedIsInDepot(p);
      ConflictIsKind(stage[p], Get(st.disk, p), PrecedingRow(st.files, p, st.next));
    }
  }

  /** The refusals of the reference and of the depot are the same. */
  lemma ConflictMatches(st: State, base: Disk, stage: Disk, l: Layered)
    requires Undisturbed(st, base)
    requires forall p :: View(base, l, p) == Get(st.disk, p)
    ensures Conflict(st, stage) <==> Refused(base, l, stage)
  {
    RefusedExactly(st, stage);
    forall p | p in stage
      ensures Refusable(st, stage, p) <==> InDepot(p) || KindDiffers(stage[p], View(base, l, p))
    {
      assert View(base, l, p) == Get(st.disk, p);
    }
  }

  /** The root agrees with every row and with what is on disk. */
  ghost predicate LinksFit(st: State, stage: Disk, p: Path)
    requires p in stage
  {
    && (p in st.disk ==> SamePerms(stage[p], st.disk[p]))
    && forall k :: k in st.files && k.path == p && st.files[k].node.Some? ==>
      SamePerms(stage[p], st.files[k].node.value)
  }

  ghost predicate DirFits(st: State, base: Disk, stage: Disk, d: Path) {
    && Get(stage, d) == Get(base, d)
    && forall k :: k in st.files && k.path == d ==> st.files[k].node == Get(base, d)
  }

  /** What a root has to respect, in terms of the depot. */
  ghost predicate FitsDepot(st: State, base: Disk, stage: Disk) {
    && (forall p :: p in stage ==> LinksFit(st, stage, p))
    && forall d, q :: SavesParents(st, stage, q) && Ancestor(d, q) && d in stage && !VerdictAt(st, stage, d).record ==>
         DirFits(st, base, stage, d)
  }

  /** A directory that is recorded is the base system's, on disk and in all rows. */
  lemma RecordedDirFits(st: State, base: Disk, stage: Disk, d: Path, q: Path)
    requires Undisturbed(st, base) && Extracted(stage) && DirFits(st, base, stage, d)
    requires SavesParents(st, stage, q) && Ancestor(d, q) && d in stage
    ensures d in base && stage[d] == base[d] && base[d].Dir? && Get(st.disk, d) == Get(base, d)
  {
    assert Get(st.disk, d) == Newest(st, base, d);
    var t := Preceding(st.files, d, st.next);
    assert t.Some? ==> Key(t.value, d) in st.files;
  }

  lemma NewRollbackRowFits(st: State, base: Disk, stage: Disk, q: Path)
    requires Undisturbed(st, base) && Extracted(stage) && FitsDepot(st, base, stage)
    requires q in stage && RollbackRow(st, stage, stage.Keys, q).Some?
    ensures RowFits(true, RollbackRow(st, stage, stage.Keys, q).value, Get(base, q))
    ensures RollbackRow(st, stage, stage.Keys, q).value.node == Get(st.disk, q)
  {
    if VerdictAt(st, stage, q).record {
      KnownIsNotRecorded(st, base, stage, q);
      assert Get(st.disk, q) == Newest(st, base, q);
    } else {
      var p :| p in stage.Keys && SavesParents(st, stage, p) && Ancestor(q, p);
      RecordedDirFits(st, base, stage, q, p);
    }
  }

  lemma NewRollbackRowRepeats(st: State, base: Disk, stage: Disk, k: Key)
    requires Undisturbed(st, base) && Extracted(stage) && FitsDepot(st, base, stage)
    requires k in st.files && k.path in stage && RollbackRow(st, stage, stage.Keys, k.path).Some?
    ensures st.files[k].node == RollbackRow(st, stage, stage.Keys, k.path).value.node
  {
    var q := k.path;
    KnownIsNotRecorded(st, base, stage, q);
    assert k == Key(k.arch, q) && k.arch in st.archives;
    var p :| p in stage.Keys && SavesParents(st, stage, p) && Ancestor(q, p);
    RecordedDirFits(st, base, stage, q, p);
  }

  lemma NewArchiveRowFits(st: State, base: Disk, stage: Disk, p: Path)
    requires Undisturbed(st, base) && !Conflict(st, stage)
    requires p in stage
    ensures RowFits(false, Row(Some(stage[p]), false, VerdictAt(st, stage, p).install, false), Get(base, p))
  {
    if p in base && base[p].Dir? {
      BaseDirStays(st, base, p);
      StagedKind(st, stage, p);
    }
  }

  lemma NewRowFits(st: State, base: Disk, stage: Disk, k: Key, row: Row)
    requires Undisturbed(st, base) && Extracted(stage) && FitsDepot(st, base, stage) && !Conflict(st, stage)
    requires RowAfter(st, stage, stage.Keys, k) == Some(row)
    requires k.arch in InstallArchives(st, stage, true)
    ensures RowFits(InstallArchives(st, stage, true)[k.arch].rollback, row, Get(base, k.path))
  {
    if k.path in stage && k.arch == RollbackSerial(st) {
      RollbackArchiveKnown(st, stage, k.path);
      NewRollbackRowFits(st, base, stage, k.path);
    } else if k.path in stage && k.arch == ArchiveSerial(st) {
      NewArchiveRowFits(st, base, stage, k.path);
    } else {
      assert RowFits(st.archives[k.arch].rollback, st.files[k], Get(base, k.path));
    }
  }

  lemma InstallKeepsRowsFit(st: State, base: Disk, stage: Disk)
    requires Undisturbed(st, base) && Extracted(stage) && FitsDepot(st, base, stage) && !Conflict(st, stage)
    ensures RowsKnown(Install(st, stage)) && RowsFit(Install(st, stage), base)
  {
    InstallKeepsRowsKnown(st, stage, stage.Keys, true);
    forall k | k in FilesAfter(st, stage, stage.Keys)
      ensures RowFits(InstallArchives(st, stage, true)[k.arch].rollback, FilesAfter(st, stage, stage.Keys)[k],
                      Get(base, k.path))
    {
      RowsAfterInstall(st, stage, stage.Keys, k);
      NewRowFits(st, base, stage, k, FilesAfter(st, stage, stage.Keys)[k]);
    }
  }

  /** A row after an install is an old one, like the disk, or the staged file. */
  lemma RowOrigin(st: State, base: Disk, stage: Disk, k: Key)
    requires Undisturbed(st, base) && Extracted(stage) && FitsDepot(st, base, stage)
    requires k in FilesAfter(st, stage, stage.Keys)
    ensures var row := FilesAfter(st, stage, stage.Keys)[k];
      || (k in st.files && k.arch < st.next && row == st.files[k])
      || (k.path in stage && k.arch == RollbackSerial(st) && row.node == Get(st.disk, k.path))
      || (k.path in stage && k.arch == ArchiveSerial(st) && row.node == Some(stage[k.path]))
  {
    RowsAfterInstall(st, stage, stage.Keys, k);
    if k.path in stage && k.arch == RollbackSerial(st) {
      NewRollbackRowFits(st, base, stage, k.path);
    }
  }

  lemma OldRowAgreesWithDisk(st: State, base: Disk, k: Key)
    requires Undisturbed(st, base) && k in st.files && st.files[k].node.Some?
    ensures k.path in st.disk
    ensures SameKind(st.files[k].node.value, st.disk[k.path]) && SamePerms(st.files[k].node.value, st.disk[k.path])
  {
    NewestExists(st, base, k);
    assert Get(st.disk, k.path) == Newest(st, base, k.path);
    var t := Preceding(st.files, k.path, st.next).value;
    assert RowsAgree(st.files[k], st.files[Key(t, k.path)]);
  }

  lemma AgreesWithDisk(st: State, base: Disk, stage: Disk, k: Key)
    requires Undisturbed(st, base) && Extracted(stage) && FitsDepot(st, base, stage) && !Conflict(st, stage)
    requires k in FilesAfter(st, stage, stage.Keys)
    ensures var n := FilesAfter(st, stage, stage.Keys)[k].node;
      n.Some? && k.path in st.disk ==> SameKind(n.value, st.disk[k.path]) && SamePerms(n.value, st.disk[k.path])
    ensures k.path !in st.disk && FilesAfter(st, stage, stage.Keys)[k].node.Some? ==> k.arch == ArchiveSerial(st)
  {
    RowOrigin(st, base, stage, k);
    if k in st.files && st.files[k].node.Some? {
      OldRowAgreesWithDisk(st, base, k);
    }
    if k.path in stage && k.path in st.disk {
      StagedKind(st, stage, k.path);
      assert LinksFit(st, stage, k.path);
    }
  }

  lemma NewAgreesWithOld(st: State, base: Disk, stage: Disk, j: Key, k: Key)
    requires Undisturbed(st, base) && Extracted(stage) && FitsDepot(st, base, stage) && !Conflict(st, stage)
    requires j in FilesAfter(st, stage, stage.Keys) && k in FilesAfter(st, stage, stage.Keys) && j.path == k.path
    ensures var files := FilesAfter(st, stage, stage.Keys);
      files[j].node.Some? && files[k].node.Some? ==> SamePerms(files[j].node.value, files[k].node.value)
  {
    RowOrigin(st, base, stage, j);
    RowOrigin(st, base, stage, k);
    if j in st.files && k in st.files {
      assert RowsAgree(st.files[j], st.files[k]);
    }
    if j in st.files && st.files[j].node.Some? {
      OldRowAgreesWithDisk(st, base, j);
    }
    if k in st.files && st.files[k].node.Some? {
      OldRowAgreesWithDisk(st, base, k);
    }
    if k.path in stage {
      assert LinksFit(st, stage, k.path);
    }
  }

  lemma InstallKeepsVersions(st: State, base: Disk, stage: Disk)
    requires Undisturbed(st, base) && Extracted(stage) && FitsDepot(st, base, stage) && !Conflict(st, stage)
    ensures VersionsAgree(FilesAfter(st, stage, stage.Keys))
  {
    var files := FilesAfter(st, stage, stage.Keys);
    forall j, k | j in files && k in files && j.path == k.path
      ensures RowsAgree(files[j], files[k])
    {
      AgreesWithDisk(st, base, stage, j);
      AgreesWithDisk(st, base, stage, k);
      NewAgreesWithOld(st, base, stage, j, k);
      if j.path !in st.disk && files[j].node.Some? && files[k].node.Some? {
        assert j == k;
      }
    }
  }

  lemma OldRow(st: State, stage: Disk, k: Key)
    requires RowsKnown(st) && k.arch < st.next
    ensures RowAt(FilesAfter(st, stage, stage.Keys), k) == RowAt(st.files, k)
    ensures k.arch in InstallArchives(st, stage, true) <==> k.arch in st.archives
    ensures k.arch in st.archives ==> InstallArchives(st, stage, true)[k.arch] == st.archives[k.arch]
  {
    RowsAfterInstall(st, stage, stage.Keys, k);
  }

  lemma RollbackRowIs(st: State, stage: Disk, k: Key)
    requires RowsKnown(st) && k in FilesAfter(st, stage, stage.Keys)
    requires k.arch >= st.next && InstallArchives(st, stage, true)[ArchiveSerial(st)].rollback == false
    requires k.arch in InstallArchives(st, stage, true) && InstallArchives(st, stage, true)[k.arch].rollback
    ensures k.path in stage && RollbackRow(st, stage, stage.Keys, k.path) == Some(FilesAfter(st, stage, stage.Keys)[k])
    ensures k.arch == RollbackSerial(st)
  {
    RowsAfterInstall(st, stage, stage.Keys, k);
  }

  lemma RowsRepeat(st: State, base: Disk, stage: Disk, j: Key, k: Key)
    requires Undisturbed(st, base) && Extracted(stage) && FitsDepot(st, base, stage)
    requires var files := FilesAfter(st, stage, stage.Keys);
      j in files && k in files && j.path == k.path && j.arch < k.arch && !files[k].base
    requires k.arch in InstallArchives(st, stage, true) && InstallArchives(st, stage, true)[k.arch].rollback
    ensures FilesAfter(st, stage, stage.Keys)[j].node == FilesAfter(st, stage, stage.Keys)[k].node
  {
    if k.arch < st.next {
      OldRow(st, stage, j);
      OldRow(st, stage, k);
    } else {
      RollbackRowIs(st, stage, k);
      OldRow(st, stage, j);
      NewRollbackRowRepeats(st, base, stage, j);
    }
  }

  lemma InstallKeepsRepeats(st: State, base: Disk, stage: Disk)
    requires Undisturbed(st, base) && Extracted(stage) && FitsDepot(st, base, stage) && !Conflict(st, stage)
    requires RowsKnown(Install(st, stage))
    ensures Repeats(Install(st, stage))
  {
    var after := Install(st, stage);
    forall j, k |
      j in after.files && k in after.files && j.path == k.path && j.arch < k.arch
      && after.archives[k.arch].rollback && !after.files[k].base
      ensures after.files[j].node == after.files[k].node
    {
      RowsRepeat(st, base, stage, j, k);
    }
  }

  /** After an install, a staged path shows the staged file and the rest is as before. */
  lemma InstallShows(st: State, base: Disk, stage: Disk, p: Path)
    requires p in stage ==> LinksFit(st, stage, p)
    requires !Conflict(st, stage)
    ensures Get(InstallDisk(st, stage, stage.Keys), p) == if p in stage then Some(stage[p]) else Get(st.disk, p)
  {
    if p in stage {
      assert !VerdictAt(st, stage, p).conflict;
      PlacedIsStaged(stage[p], Get(st.disk, p), PrecedingRow(st.files, p, st.next));
    }
  }

  lemma SameRowsSamePreceding(f: Files, g: Files, p: Path, s: nat)
    requires forall t: nat :: t < s ==> RowAt(f, Key(t, p)) == RowAt(g, Key(t, p))
    ensures PrecedingRow(f, p, s) == PrecedingRow(g, p, s)
  {
    forall t | 0 <= t < s
      ensures Key(t, p) in f <==> Key(t, p) in g
    {
      assert RowAt(f, Key(t, p)) == RowAt(g, Key(t, p));
    }
    PrecedingSame(f, g, p, s);
    var r := Preceding(g, p, s);
    if r.Some? {
      assert RowAt(f, Key(r.value, p)) == RowAt(g, Key(r.value, p));
    }
  }

  lemma NewestUnstaged(st: State, stage: Disk, p: Path)
    requires RowsKnown(st) && p !in stage
    ensures PrecedingRow(FilesAfter(st, stage, stage.Keys), p, st.next + 2) == PrecedingRow(st.files, p, st.next)
  {
    var files := FilesAfter(st, stage, stage.Keys);
    forall t: nat | t < st.next + 2
      ensures RowAt(files, Key(t, p)) == RowAt(st.files, Key(t, p))
    {
      RowsAfterInstall(st, stage, stage.Keys, Key(t, p));
    }
    SameRowsSamePreceding(files, st.files, p, st.next + 2);
    FreshSerials(st, st.next, p);
    FreshSerials(st, st.next + 1, p);
    assert Preceding(st.files, p, st.next + 2) == Preceding(st.files, p, st.next + 1);
  }

  lemma NewestAfterInstall(st: State, base: Disk, stage: Disk, p: Path)
    requires RowsKnown(st) && !Conflict(st, stage)
    ensures Newest(Install(st, stage), base, p) == if p in stage then Some(stage[p]) else Newest(st, base, p)
  {
    if p in stage {
      RowsAfterInstall(st, stage, stage.Keys, Key(ArchiveSerial(st), p));
      PrecedingIs(FilesAfter(st, stage, stage.Keys), p, st.next + 2, st.next + 1);
    } else {
      NewestUnstaged(st, stage, p);
    }
  }

  lemma InstallKeepsUndisturbed(st: State, base: Disk, stage: Disk)
    requires Undisturbed(st, base) && Extracted(stage) && FitsDepot(st, base, stage) && !Conflict(st, stage)
    ensures Undisturbed(Install(st, stage), base)
  {
    InstallKeepsValid(st, stage);
    InstallKeepsRowsFit(st, base, stage);
    InstallKeepsVersions(st, base, stage);
    InstallKeepsRepeats(st, base, stage);
    forall p
      ensures Get(InstallDisk(st, stage, stage.Keys), p) == Newest(Install(st, stage), base, p)
    {
      InstallShows(st, base, stage, p);
      NewestAfterInstall(st, base, stage, p);
      assert Get(st.disk, p) == Newest(st, base, p);
    }
  }

  // ------------------------------------------------------------- uninstalling

  /** Nobody deletes a row that is not the archive's own. */
  lemma NothingDiscarded(st: State, base: Disk, a: nat, k: Key)
    requires Undisturbed(st, base) && Held(st, a)
    ensures !Discarded(st, a, k)
  {
    if k in st.files {
      assert RowFits(st.archives[k.arch].rollback, st.files[k], Get(base, k.path));
      assert ShapeOk(st.archives[k.arch].rollback, st.files[k]);
    }
  }

  lemma NotAbove(st: State, a: nat, p: Path, t: nat)
    requires Current(st, a, p) && Key(t, p) in st.files && t != a
    ensures Preceding(st.files, p, a).Some? && t <= Preceding(st.files, p, a).value
  {
  }

  /** A directory is removed only if archive a alone accounts for everything below it. */
  lemma RemovedIsUnclaimed(st: State, base: Disk, a: nat, d: Path, t: nat)
    requires Undisturbed(st, base) && Held(st, a) && Removed(st, a, d)
    ensures d !in base
    ensures Key(t, d) in st.files && t != a ==> st.files[Key(t, d)].node.None?
  {
    var s := Preceding(st.files, d, a).value;
    AbsentIsOldest(st, base, Key(s, d), t);
    if Key(t, d) in st.files && t != a {
      NotAbove(st, a, d, t);
      assert t == s;
    }
  }

  lemma NothingBelowRemoved(st: State, base: Disk, a: nat, d: Path, p: Path, t: nat)
    requires Undisturbed(st, base) && Held(st, a) && Removed(st, a, d) && Ancestor(d, p)
    ensures p !in base
    ensures Key(t, p) in st.files && t != a ==> st.files[Key(t, p)].node.None?
  {
    RemovedIsUnclaimed(st, base, a, d, t);
    if Key(t, p) in st.files && t != a {
      assert ShapeOk(st.archives[t].rollback, st.files[Key(t, p)]);
      assert RowFits(st.archives[t].rollback, st.files[Key(t, p)], Get(base, p));
      assert Installed(st, t) ==> Key(Key(t, p).arch, d) in st.files;
    }
  }

  /** Whatever is below a removed directory is removed in its own right. */
  lemma RemovedBelow(st: State, base: Disk, a: nat, d: Path, p: Path)
    requires Undisturbed(st, base) && Held(st, a) && Removed(st, a, d) && Ancestor(d, p)
    requires p in st.disk
    ensures Removed(st, a, p)
  {
    assert Get(st.disk, p) == Newest(st, base, p);
    NothingBelowRemoved(st, base, a, d, p, 0);
    var t := Preceding(st.files, p, st.next).value;
    NothingBelowRemoved(st, base, a, d, p, t);
    assert t == a;
    assert ShapeOk(false, st.files[Key(a, p)]);
    assert Current(st, a, p);
    HasPreceding(st, Key(a, p));
    NothingBelowRemoved(st, base, a, d, p, Preceding(st.files, p, a).value);
  }

  /** Uninstalling a newest file brings back exactly what was recorded below it. */
  lemma RevertedIsPreceding(st: State, base: Disk, a: nat, p: Path)
    requires Undisturbed(st, base) && Held(st, a)
    requires Key(a, p) in st.files && !Superseded(st.files, p, a)
    ensures Preceding(st.files, p, a).Some?
    ensures Reverted(st, a, p) == PrecedingRow(st.files, p, a).value.node
  {
    var k := Key(a, p);
    assert ShapeOk(false, st.files[k]);
    HasPreceding(st, k);
    PrecedingIs(st.files, p, st.next, a);
    assert Get(st.disk, p) == Newest(st, base, p);
    assert Current(st, a, p);
    var s := Preceding(st.files, p, a).value;
    var pre := Key(s, p);
    assert KindAgrees(st.files, k);
    assert RowFits(st.archives[s].rollback, st.files[pre], Get(base, p));
    assert RowsAgree(st.files[k], st.files[pre]);
    assert ShapeOk(st.archives[s].rollback, st.files[pre]);
    assert BackedRow(st.archives[s].rollback, st.files[pre], StoredCopy(st.store, s, p));
    if st.files[pre].node.Some? {
      RestoreIsExact(st.disk[p], st.files[pre].node.value, StoredCopy(st.store, s, p));
    }
  }

  lemma NewestAfterUninstall(st: State, base: Disk, a: nat, p: Path)
    requires Undisturbed(st, base) && Held(st, a)
    ensures PrecedingRow(RemainingFiles(st, a), p, st.next) ==
      if Key(a, p) in st.files && !Superseded(st.files, p, a) then PrecedingRow(st.files, p, a)
      else PrecedingRow(st.files, p, st.next)
  {
    var files := RemainingFiles(st, a);
    forall k: Key | k in st.files && k.arch != a
      ensures k in files && files[k] == st.files[k]
    {
      NothingDiscarded(st, base, a, k);
    }
    var target := if Key(a, p) in st.files && !Superseded(st.files, p, a) then Preceding(st.files, p, a)
                  else Preceding(st.files, p, st.next);
    match target {
      case Some(t) =>
        assert t != a;
        assert Key(t, p) in files;
        PrecedingIs(files, p, st.next, t);
      case None => PrecedingNone(files, p, st.next);
    }
  }

  lemma BytesStored(st: State, base: Disk, k: Key)
    requires Undisturbed(st, base) && k in st.files && IsData(st.files[k].node)
    ensures StoredCopy(st.store, k.arch, k.path).Some?
  {
    assert ShapeOk(st.archives[k.arch].rollback, st.files[k]);
    assert RowFits(st.archives[k.arch].rollback, st.files[k], Get(base, k.path));
    assert BackedRow(st.archives[k.arch].rollback, st.files[k], StoredCopy(st.store, k.arch, k.path));
  }

  lemma BytesAreThere(st: State, base: Disk, a: nat, p: Path)
    requires Undisturbed(st, base) && Current(st, a, p)
    ensures !LacksBytes(st, a, p)
  {
    if LacksBytes(st, a, p) {
      var k := Key(Preceding(st.files, p, a).value, p);
      BytesStored(st, base, k);
    }
  }

  /** Without edits no bytes are missing, and no uninstall fails. */
  lemma UninstallSucceeds(st: State, base: Disk, a: nat)
    requires Undisturbed(st, base)
    ensures !UninstallFails(st, a)
    ensures UninstallHeld(st, a) == Uninstalled(st, a)
  {
    forall p | Current(st, a, p)
      ensures !LacksBytes(st, a, p)
    {
      BytesAreThere(st, base, a, p);
    }
  }

  lemma SweptIsRemoved(st: State, base: Disk, a: nat, p: Path)
    requires Undisturbed(st, base) && Held(st, a) && p in st.disk
    ensures Swept(st, a, PathsOf(st.files, a), p) <==> Removed(st, a, p)
  {
    var done := PathsOf(st.files, a);
    if Swept(st, a, done, p) {
      var d :| d in done && Removed(st, a, d) && (d == p || Ancestor(d, p));
      if d != p {
        RemovedBelow(st, base, a, d, p);
      }
    }
    if Removed(st, a, p) {
      assert Key(a, p).path in done;
      assert Swept(st, a, done, p);
    }
  }

  lemma RevertedIsNewest(st: State, base: Disk, a: nat, p: Path)
    requires Undisturbed(st, base) && Held(st, a)
    ensures Reverted(st, a, p) == Newest(Uninstalled(st, a), base, p)
  {
    NewestAfterUninstall(st, base, a, p);
    assert Get(st.disk, p) == Newest(st, base, p);
    if Key(a, p) in st.files && !Superseded(st.files, p, a) {
      RevertedIsPreceding(st, base, a, p);
    }
  }

  lemma UninstallShows(st: State, base: Disk, a: nat, p: Path)
    requires Undisturbed(st, base) && Held(st, a)
    ensures Get(UninstallDisk(st, a, PathsOf(st.files, a)), p) == Newest(Uninstalled(st, a), base, p)
  {
    RevertedIsNewest(st, base, a, p);
    if Current(st, a, p) {
      assert Key(a, p).path in PathsOf(st.files, a);
    }
    if p in st.disk {
      SweptIsRemoved(st, base, a, p);
    }
  }

  lemma UninstallKeepsRowsFit(st: State, base: Disk, a: nat)
    requires Undisturbed(st, base) && Held(st, a)
    ensures RowsKnown(Uninstalled(st, a)) && RowsFit(Uninstalled(st, a), base)
  {
    UninstallKeepsRowsKnown(st, a);
    var after := Uninstalled(st, a);
    forall k | k in after.files
      ensures RowFits(after.archives[k.arch].rollback, after.files[k], Get(base, k.path))
    {
      assert RowFits(st.archives[k.arch].rollback, st.files[k], Get(base, k.path));
    }
  }

  /** Without edits every archive that is held can be uninstalled. */
  lemma HeldKeepsUndisturbed(st: State, base: Disk, a: nat)
    requires Undisturbed(st, base) && Held(st, a)
    ensures Undisturbed(UninstallHeld(st, a), base) && UninstallHeld(st, a) == Uninstalled(st, a)
  {
    UninstallSucceeds(st, base, a);
    UninstalledIsValid(st, a);
    UninstallKeepsRowsFit(st, base, a);
    var after := Uninstalled(st, a);
    forall p
      ensures Get(after.disk, p) == Newest(after, base, p)
    {
      UninstallShows(st, base, a, p);
    }
  }

  lemma UninstallKeepsUndisturbed(st: State, base: Disk, a: nat)
    requires Undisturbed(st, base)
    ensures Undisturbed(Uninstall(st, a), base)
  {
    if Installed(st, a) {
      HeldKeepsUndisturbed(st, base, a);
    }
  }

  // ------------------------------------------------------------- the refinement

  ghost predicate RowMatches(st: State, l: Layered, s: nat, p: Path) {
    && (Key(s, p) in st.files && Installed(st, s) <==> s in l.layers && p in l.layers[s])
    && (s in l.layers && p in l.layers[s] ==> st.files[Key(s, p)].node == Some(l.layers[s][p]))
  }

  ghost predicate HasRow(files: Files, p: Path) {
    exists t :: Key(t, p) in files
  }

  /** The rows of the installed archives are the layers of the reference, and every path seen has a row. */
  ghost predicate Matches(st: State, l: Layered) {
    && st.next == l.next
    && (forall s :: s in l.layers ==> s < l.next)
    && (forall s :: Installed(st, s) ==> s in l.layers)
    && (forall s: nat, p :: RowMatches(st, l, s, p))
    && (forall p :: p in l.seen <==> HasRow(st.files, p))
  }

  /** A rollback row changes nothing: it repeats what is below it. */
  lemma RollbackRepeats(st: State, base: Disk, p: Path, s: nat)
    requires RowsKnown(st) && RowsFit(st, base) && Repeats(st) && BaseFirst(st.files)
    requires Key(s, p) in st.files && st.archives[s].rollback
    ensures st.files[Key(s, p)].node == NewestBelow(st, base, p, s)
  {
    assert RowFits(true, st.files[Key(s, p)], Get(base, p));
    var t := Preceding(st.files, p, s);
    if t.Some? {
      assert !st.files[Key(s, p)].base;
      assert Key(t.value, p).path == Key(s, p).path;
    }
  }

  /** The newest rows are what the layers show on top of the base system. */
  lemma {:induction false} NewestIsOverlay(st: State, base: Disk, l: Layered, p: Path, s: nat)
    requires RowsKnown(st) && RowsFit(st, base) && Repeats(st) && BaseFirst(st.files) && Matches(st, l)
    requires s <= st.next
    ensures Overlay(base, l.layers, p, s) == NewestBelow(st, base, p, s)
  {
    if s == 0 {
    } else {
      NewestIsOverlay(st, base, l, p, s - 1);
      var k := Key(s - 1, p);
      assert RowMatches(st, l, s - 1, p);
      if k in st.files && st.archives[s - 1].rollback {
        RollbackRepeats(st, base, p, s - 1);
      }
    }
  }

  lemma ViewIsDisk(st: State, base: Disk, l: Layered)
    requires Undisturbed(st, base) && Matches(st, l)
    ensures forall p :: View(base, l, p) == Get(st.disk, p)
  {
    forall p
      ensures View(base, l, p) == Get(st.disk, p)
    {
      NewestIsOverlay(st, base, l, p, st.next);
      assert Get(st.disk, p) == Newest(st, base, p);
    }
  }

  lemma OldArchiveStays(st: State, stage: Disk, active: bool, s: nat)
    requires RowsKnown(st) && s < st.next
    ensures s in InstallArchives(st, stage, active) <==> s in st.archives
    ensures s in st.archives ==> InstallArchives(st, stage, active)[s] == st.archives[s]
  {
  }

  lemma OldRowMatches(st: State, l: Layered, stage: Disk, s: nat, p: Path)
    requires RowsKnown(st) && s < st.next == l.next && RowMatches(st, l, s, p) && !Conflict(st, stage)
    ensures RowMatches(Install(st, stage), Grown(l, stage), s, p)
  {
    RowsAfterInstall(st, stage, stage.Keys, Key(s, p));
    OldArchiveStays(st, stage, true, s);
  }

  lemma FreshRow(st: State, stage: Disk, p: Path)
    requires RowsKnown(st)
    ensures var row := RowAt(FilesAfter(st, stage, stage.Keys), Key(ArchiveSerial(st), p));
      if p in stage then row.Some? && row.value.node == Some(stage[p]) else row.None?
  {
    RowsAfterInstall(st, stage, stage.Keys, Key(ArchiveSerial(st), p));
    FreshSerials(st, ArchiveSerial(st), p);
  }

  lemma FreshArchive(st: State, stage: Disk, s: nat)
    requires RowsKnown(st) && s >= st.next && !Conflict(st, stage)
    ensures Installed(Install(st, stage), s) <==> s == ArchiveSerial(st)
  {
  }

  lemma NewRowMatches(after: State, l: Layered, stage: Disk, s: nat, p: Path)
    requires s >= l.next && s !in l.layers && (Installed(after, s) <==> s == l.next + 1)
    requires var row := RowAt(after.files, Key(l.next + 1, p));
      if p in stage then row.Some? && row.value.node == Some(stage[p]) else row.None?
    ensures RowMatches(after, Grown(l, stage), s, p)
  {
  }

  lemma StagedHasRow(st: State, stage: Disk, p: Path)
    requires RowsKnown(st)
    ensures HasRow(FilesAfter(st, stage, stage.Keys), p) <==> HasRow(st.files, p) || p in stage
  {
    var files := FilesAfter(st, stage, stage.Keys);
    if t :| Key(t, p) in st.files {
      RowsAfterInstall(st, stage, stage.Keys, Key(t, p));
      assert Key(t, p) in files;
    }
    if p in stage {
      RowsAfterInstall(st, stage, stage.Keys, Key(ArchiveSerial(st), p));
      assert Key(ArchiveSerial(st), p) in files;
    }
    if t :| Key(t, p) in files {
      RowsAfterInstall(st, stage, stage.Keys, Key(t, p));
    }
  }

  lemma InstallMatches(st: State, l: Layered, stage: Disk)
    requires RowsKnown(st) && Matches(st, l) && !Conflict(st, stage)
    ensures Matches(Install(st, stage), Grown(l, stage))
  {
    var after, grown := Install(st, stage), Grown(l, stage);
    forall s: nat, p
      ensures RowMatches(after, grown, s, p)
    {
      if s < st.next {
        OldRowMatches(st, l, stage, s, p);
      } else {
        FreshArchive(st, stage, s);
        FreshRow(st, stage, p);
        NewRowMatches(after, l, stage, s, p);
      }
    }
    forall p
      ensures p in grown.seen <==> HasRow(after.files, p)
    {
      StagedHasRow(st, stage, p);
    }
  }

  lemma LeftRowMatches(st: State, l: Layered, a: nat, s: nat, p: Path)
    requires RowsKnown(st) && RowShape(st) && Matches(st, l) && !UninstallFails(st, a)
    ensures RowMatches(Uninstall(st, a), l.(layers := l.layers - {a}), s, p)
  {
    assert RowMatches(st, l, s, p);
    if !Installed(st, a) {
      assert RowMatches(st, l, a, p);
    } else if Key(s, p) in st.files && Installed(st, s) {
      assert ShapeOk(false, st.files[Key(s, p)]);
      assert !Discarded(st, a, Key(s, p));
    }
  }

  /** The base-system row of a path is never deleted. */
  lemma StillHasRow(st: State, a: nat, p: Path)
    requires RowsKnown(st) && RowShape(st) && BaseFirst(st.files) && Held(st, a)
    ensures HasRow(RemainingFiles(st, a), p) <==> HasRow(st.files, p)
  {
    var files := RemainingFiles(st, a);
    if t :| Key(t, p) in st.files {
      assert HasBase(st.files, Key(t, p).path);
      var b: nat :| Key(b, p) in st.files && st.files[Key(b, p)].base;
      assert ShapeOk(st.archives[b].rollback, st.files[Key(b, p)]);
      assert Key(b, p) in files;
    }
    if t :| Key(t, p) in files {
      assert Key(t, p) in st.files;
    }
  }

  lemma UninstallMatches(st: State, l: Layered, a: nat)
    requires RowsKnown(st) && RowShape(st) && BaseFirst(st.files) && Matches(st, l) && !UninstallFails(st, a)
    ensures Matches(Uninstall(st, a), l.(layers := l.layers - {a}))
  {
    var after, fewer := Uninstall(st, a), l.(layers := l.layers - {a});
    forall s: nat, p
      ensures RowMatches(after, fewer, s, p)
    {
      LeftRowMatches(st, l, a, s, p);
    }
    assert forall s :: Installed(after, s) ==> Installed(st, s) && s != a;
    forall p
      ensures p in fewer.seen <==> HasRow(after.files, p)
    {
      if Installed(st, a) {
        StillHasRow(st, a, p);
      }
    }
  }

  // ------------------------------------------------------------- what roots have to respect

  /** Every row stands for a layer or for the base system. */
  lemma RowStandsFor(st: State, base: Disk, l: Layered, k: Key)
    requires Undisturbed(st, base) && Matches(st, l) && k in st.files
    ensures var row := st.files[k];
      || (k.arch in l.layers && k.path in l.layers[k.arch] && row.node == Some(l.layers[k.arch][k.path]))
      || row.node == Get(base, k.path)
  {
    assert k == Key(k.arch, k.path);
    assert RowMatches(st, l, k.arch, k.path);
    assert RowFits(st.archives[k.arch].rollback, st.files[k], Get(base, k.path));
  }

  lemma LinksFitDepot(st: State, base: Disk, l: Layered, stage: Disk, p: Path)
    requires Undisturbed(st, base) && Matches(st, l) && p in stage && LinksKept(base, l, stage, p)
    ensures LinksFit(st, stage, p)
  {
    forall k | k in st.files && k.path == p && st.files[k].node.Some?
      ensures SamePerms(stage[p], st.files[k].node.value)
    {
      RowStandsFor(st, base, l, k);
    }
    assert Get(st.disk, p) == Newest(st, base, p);
    var t := Preceding(st.files, p, st.next);
    assert t.Some? ==> Key(t.value, p) in st.files;
  }

  /** The depot records a directory exactly where the reference says so. */
  lemma RecordedDir(st: State, base: Disk, l: Layered, stage: Disk, d: Path, q: Path)
    requires Undisturbed(st, base) && Matches(st, l) && d in stage && Ancestor(d, q)
    ensures SavesParents(st, stage, q) && !VerdictAt(st, stage, d).record <==> RecordsDir(base, l, stage, d, q)
  {
    if q in stage {
      KnownIsNotRecorded(st, base, stage, q);
      KnownIsNotRecorded(st, base, stage, d);
      assert Get(st.disk, q) == Newest(st, base, q);
      HasRowBelow(st, q);
      HasRowBelow(st, d);
    }
  }

  lemma HasRowBelow(st: State, p: Path)
    requires RowsKnown(st)
    ensures HasRow(st.files, p) <==> Preceding(st.files, p, st.next).Some?
  {
    if t :| Key(t, p) in st.files {
      assert Key(t, p).arch in st.archives;
    }
  }

  lemma DirFitsDepot(st: State, base: Disk, l: Layered, stage: Disk, d: Path)
    requires Undisturbed(st, base) && Matches(st, l) && DirKept(base, l, stage, d)
    ensures DirFits(st, base, stage, d)
  {
    forall k | k in st.files && k.path == d
      ensures st.files[k].node == Get(base, d)
    {
      RowStandsFor(st, base, l, k);
    }
  }

  lemma FitsInDepot(st: State, base: Disk, l: Layered, stage: Disk)
    requires Undisturbed(st, base) && Matches(st, l) && Fits(base, l, stage)
    ensures FitsDepot(st, base, stage)
  {
    forall p | p in stage
      ensures LinksFit(st, stage, p)
    {
      LinksFitDepot(st, base, l, stage, p);
    }
    forall d, q | SavesParents(st, stage, q) && Ancestor(d, q) && d in stage && !VerdictAt(st, stage, d).record
      ensures DirFits(st, base, stage, d)
    {
      RecordedDir(st, base, l, stage, d, q);
      DirFitsDepot(st, base, l, stage, d);
    }
  }

  // ------------------------------------------------------------- every step and every run

  /** One step of the depot is one step of the reference. */
  lemma StepRefines(st: State, base: Disk, l: Layered, step: Step)
    requires Undisturbed(st, base) && Matches(st, l) && StepFits(base, l, step)
    ensures Undisturbed(Next(st, step), base)
    ensures Matches(Next(st, step), LayeredStep(base, l, step))
  {
    ViewIsDisk(st, base, l);
    match step {
      case DoInstall(stage) =>
        ConflictMatches(st, base, stage, l);
        if !Conflict(st, stage) {
          FitsInDepot(st, base, l, stage);
          InstallKeepsUndisturbed(st, base, stage);
          InstallMatches(st, l, stage);
        }
      case DoUninstall(serial) =>
        UninstallKeepsUndisturbed(st, base, serial);
        UninstallSucceeds(st, base, serial);
        UninstallMatches(st, l, serial);
    }
  }

  lemma {:induction false} RunRefines(st: State, base: Disk, l: Layered, steps: seq<Step>)
    requires Undisturbed(st, base) && Matches(st, l) && RunFits(base, l, steps)
    ensures Undisturbed(Run(st, steps), base)
    ensures Matches(Run(st, steps), LayeredRun(base, l, steps))
    decreases |steps|
  {
    if steps == [] {
    } else {
      StepRefines(st, base, l, steps[0]);
      RunRefines(Next(st, steps[0]), base, LayeredStep(base, l, steps[0]), steps[1..]);
    }
  }

  /** In every run the disk is the base system under the installed roots, newest on top. */
  lemma DepotIsLayered(base: Disk, steps: seq<Step>)
    requires TreeClosed(base)
    requires RunFits(base, NO_LAYERS, steps)
    ensures forall p ::
      Get(Run(Fresh(base), steps).disk, p) == View(base, LayeredRun(base, NO_LAYERS, steps), p)
  {
    FreshIsValid(base);
    RunRefines(Fresh(base), base, NO_LAYERS, steps);
    ViewIsDisk(Run(Fresh(base), steps), base, LayeredRun(base, NO_LAYERS, steps));
  }

  lemma {:induction false} NoLayers(base: Disk, layers: map<nat, Disk>, p: Path, s: nat)
    requires forall t :: t in layers && t < s ==> p !in layers[t]
    ensures Overlay(base, layers, p, s) == Get(base, p)
  {
    if s == 0 {
    } else {
      NoLayers(base, layers, p, s - 1);
    }
  }

  lemma RunMatches(base: Disk, steps: seq<Step>)
    requires TreeClosed(base)
    requires RunFits(base, NO_LAYERS, steps)
    ensures Matches(Run(Fresh(base), steps), LayeredRun(base, NO_LAYERS, steps))
  {
    FreshIsValid(base);
    RunRefines(Fresh(base), base, NO_LAYERS, steps);
  }

  lemma NothingInstalled(st: State, l: Layered, base: Disk)
    requires Matches(st, l) && forall a :: !Installed(st, a)
    ensures forall p :: View(base, l, p) == Get(base, p)
  {
    forall p
      ensures View(base, l, p) == Get(base, p)
    {
      forall t | t in l.layers
        ensures p !in l.layers[t]
      {
        assert RowMatches(st, l, t, p);
      }
      NoLayers(base, l.layers, p, l.next);
    }
  }

  lemma SameDisk(a: Disk, b: Disk)
    requires forall p :: Get(a, p) == Get(b, p)
    ensures a == b
  {
    assert forall p :: p in a <==> Get(a, p).Some?;
    assert forall p :: p in b <==> Get(b, p).Some?;
    assert forall p :: p in a ==> Get(a, p) == Some(a[p]) && Get(b, p) == Some(b[p]);
  }

  /** The design goal: once no root is installed any more, the system is the original one. */
  lemma UninstallingAllRestoresSystem(base: Disk, steps: seq<Step>)
    requires TreeClosed(base)
    requires RunFits(base, NO_LAYERS, steps)
    requires forall a :: !Installed(Run(Fresh(base), steps), a)
    ensures Run(Fresh(base), steps).disk == base
  {
    var st, last := Run(Fresh(base), steps), LayeredRun(base, NO_LAYERS, steps);
    DepotIsLayered(base, steps);
    RunMatches(base, steps);
    NothingInstalled(st, last, base);
    SameDisk(st.disk, base);
  }

  // ------------------------------------------------------------- directories

  /** Directory::remove would meet a directory that is not empty, and delete what is in it. */
  ghost predicate FallbackFires(st: State, a: nat) {
    exists d, p :: Removed(st, a, d) && Ancestor(d, p) && p in st.disk && !Removed(st, a, p)
  }

  /** Without outside files the recursive delete never fires, and a directory that another
      installed archive still claims is never removed. */
  lemma RemovesOnlyItsOwn(st: State, base: Disk, a: nat)
    requires Undisturbed(st, base) && Installed(st, a)
    ensures !FallbackFires(st, a)
    ensures forall d, t: nat :: Removed(st, a, d) && Installed(st, t) && t != a ==> Key(t, d) !in st.files
  {
    forall d, p | Removed(st, a, d) && Ancestor(d, p) && p in st.disk
      ensures Removed(st, a, p)
    {
      RemovedBelow(st, base, a, d, p);
    }
    forall d, t: nat | Removed(st, a, d) && Installed(st, t) && t != a
      ensures Key(t, d) !in st.files
    {
      RemovedIsUnclaimed(st, base, a, d, t);
      assert Key(t, d) in st.files ==> ShapeOk(st.archives[Key(t, d).arch].rollback, st.files[Key(t, d)]);
    }
  }

  // ------------------------------------------------------------- superseded archives

  ghost predicate OutOfUse(st: State, k: Key)
    requires k in st.files
  {
    Superseded(st.files, k.path, k.arch) || Get(st.disk, k.path) != st.files[k].node
  }

  /** is_superseded: nothing on disk is the archive's own newest file. */
  ghost predicate IsSuperseded(st: State, a: nat) {
    forall k :: k in st.files && k.arch == a ==> OutOfUse(st, k)
  }

  /** An archive is superseded exactly if uninstalling it would touch no file: none of its own is
      the one on disk with no newer row above it. */
  lemma SupersededOwnsNothing(st: State, a: nat)
    requires RowsKnown(st) && RowShape(st) && Installed(st, a)
    ensures IsSuperseded(st, a) <==> forall p :: !Current(st, a, p)
  {
    if forall p :: !Current(st, a, p) {
      forall k | k in st.files && k.arch == a
        ensures OutOfUse(st, k)
      {
        assert !Current(st, a, k.path) && k == Key(a, k.path);
        assert ShapeOk(false, st.files[k]);
      }
    } else {
      var p :| Current(st, a, p);
      assert !OutOfUse(st, Key(a, p));
    }
  }

  ghost predicate Overlaid(st: State, a: nat, p: Path) {
    exists t: nat :: t > a && Key(t, p) in st.files
  }

  /** Without edits it is superseded exactly if newer archives have a row for each of its paths. */
  lemma SupersededIsOverlaid(st: State, base: Disk, a: nat)
    requires Undisturbed(st, base) && Installed(st, a)
    ensures IsSuperseded(st, a) <==> forall p :: Key(a, p) in st.files ==> Overlaid(st, a, p)
  {
    forall p | Key(a, p) in st.files
      ensures OutOfUse(st, Key(a, p)) <==> Overlaid(st, a, p)
    {
      if !Overlaid(st, a, p) {
        PrecedingIs(st.files, p, st.next, a);
        assert Get(st.disk, p) == Newest(st, base, p);
      } else {
        var t: nat :| t > a && Key(t, p) in st.files;
      }
    }
    forall k | k in st.files && k.arch == a
      ensures k == Key(a, k.path)
    {
    }
  }

  lemma InstalledAgain(st: State, stage: Disk, a: nat)
    requires RowsKnown(st) && Installed(st, a) && !Conflict(st, stage)
    requires forall p :: Key(a, p) in st.files ==> p in stage
    ensures Installed(Install(st, stage), a) && IsSuperseded(Install(st, stage), a)
  {
    var after := Install(st, stage);
    OldArchive(st, stage, true, a);
    forall k | k in after.files && k.arch == a
      ensures OutOfUse(after, k)
    {
      RowsAfterInstall(st, stage, stage.Keys, k);
      assert k == Key(a, k.path);
      ArchiveRowIsStaged(st, stage, k.path);
      assert Key(ArchiveSerial(st), k.path) in after.files;
    }
  }

  /** A root under one that has all its paths is superseded at once, for instance one installed twice,
      whatever the system looked like and whatever was edited in between. */
  lemma InstalledTwice(st: State, first: Disk, edited: Disk, second: Disk)
    requires RowsKnown(st) && Extracted(first) && !Conflict(st, first)
    requires first.Keys <= second.Keys && !Conflict(Install(st, first).(disk := edited), second)
    ensures var again, a := Install(Install(st, first).(disk := edited), second), ArchiveSerial(st);
      Installed(again, a) && IsSuperseded(again, a)
  {
    var mid, a := Install(st, first).(disk := edited), ArchiveSerial(st);
    InstallKeepsRowsKnown(st, first, first.Keys, true);
    forall p | Key(a, p) in mid.files
      ensures p in second
    {
      RowsAfterInstall(st, first, first.Keys, Key(a, p));
      FreshSerials(st, a, p);
    }
    InstalledAgain(mid, second, a);
  }

  /** In any valid depot, edited or not, a superseded archive leaves without a trace on disk. */
  lemma SupersededLeavesDisk(st: State, a: nat)
    requires IsSuperseded(st, a)
    ensures Uninstall(st, a).disk == UninstallHeld(st, a).disk == st.disk
  {
    forall p
      ensures !Current(st, a, p)
    {
      if Key(a, p) in st.files {
        assert OutOfUse(st, Key(a, p));
      }
    }
  }

  lemma StillSuperseded(st: State, base: Disk, a: nat, b: nat, p: Path)
    requires Undisturbed(st, base) && Held(st, a)
    requires IsSuperseded(st, a) && Superseded(st.files, p, b)
    ensures Superseded(RemainingFiles(st, a), p, b)
  {
    var u: nat :| b < u && Key(u, p) in st.files;
    assert Key(u, p).arch in st.archives;
    var t := Preceding(st.files, p, st.next).value;
    assert Get(st.disk, p) == Newest(st, base, p);
    assert t >= u;
    var own := Key(a, p);
    if own in st.files {
      assert OutOfUse(st, own);
    }
    assert t != a;
    NothingDiscarded(st, base, a, Key(t, p));
    assert Key(t, p) in RemainingFiles(st, a);
  }

  lemma StaysOutOfUse(st: State, base: Disk, a: nat, k: Key, after: State)
    requires Undisturbed(st, base) && Held(st, a) && IsSuperseded(st, a)
    requires after.files == RemainingFiles(st, a) && after.disk == st.disk
    requires k in after.files && k in st.files && OutOfUse(st, k)
    ensures OutOfUse(after, k)
  {
    if Superseded(st.files, k.path, k.arch) {
      StillSuperseded(st, base, a, k.arch, k.path);
    }
  }

  /** Uninstalling one superseded archive does not bring another one back into use. */
  lemma SupersededStays(st: State, base: Disk, a: nat, b: nat)
    requires Undisturbed(st, base) && Held(st, a)
    requires IsSuperseded(st, a) && IsSuperseded(st, b)
    ensures IsSuperseded(UninstallHeld(st, a), b)
  {
    SupersededLeavesDisk(st, a);
    UninstallSucceeds(st, base, a);
    var after := Uninstalled(st, a);
    forall k | k in after.files && k.arch == b
      ensures OutOfUse(after, k)
    {
      StaysOutOfUse(st, base, a, k, after);
    }
  }

  ghost function UninstallAll(st: State, list: seq<nat>): State
    decreases |list|
  {
    if list == [] then st else UninstallAll(UninstallHeld(st, list[0]), list[1..])
  }

  /** Superseded roots as the list has them. */
  ghost predicate AllSuperseded(st: State, list: seq<nat>) {
    forall a :: a in list ==> Held(st, a) && IsSuperseded(st, a)
  }

  lemma AllStaySuperseded(st: State, base: Disk, list: seq<nat>)
    requires Undisturbed(st, base) && list != [] && AllSuperseded(st, list)
    ensures AllSuperseded(UninstallHeld(st, list[0]), list[1..])
  {
    var a := list[0];
    HeldKeepsUndisturbed(st, base, a);
    forall b | b in list[1..]
      ensures Held(UninstallHeld(st, a), b) && IsSuperseded(UninstallHeld(st, a), b)
    {
      assert b in list;
      SupersededStays(st, base, a, b);
    }
  }

  /** Nothing is left of an archive: no row of its own, no files, no store. */
  ghost predicate Gone(st: State, a: nat) {
    a !in st.archives && a !in st.store && forall p :: Key(a, p) !in st.files
  }

  lemma FirstIsGone(st: State, base: Disk, list: seq<nat>)
    requires Undisturbed(st, base) && list != [] && AllSuperseded(st, list)
    ensures Undisturbed(UninstallHeld(st, list[0]), base)
    ensures AllSuperseded(UninstallHeld(st, list[0]), list[1..])
    ensures Gone(UninstallHeld(st, list[0]), list[0])
  {
    HeldKeepsUndisturbed(st, base, list[0]);
    AllStaySuperseded(st, base, list);
  }

  /** The list get_superseded_archives computes up front can be worked off in any order. */
  lemma {:induction false} SupersededListLeavesDisk(st: State, base: Disk, list: seq<nat>)
    requires Undisturbed(st, base) && AllSuperseded(st, list)
    ensures UninstallAll(st, list).disk == st.disk && Undisturbed(UninstallAll(st, list), base)
    decreases |list|
  {
    if list == [] {
    } else {
      SupersededLeavesDisk(st, list[0]);
      FirstIsGone(st, base, list);
      SupersededListLeavesDisk(UninstallHeld(st, list[0]), base, list[1..]);
    }
  }

  lemma GoneStaysGone(st: State, a: nat, b: nat)
    requires Gone(st, b)
    ensures Gone(UninstallHeld(st, a), b)
  {
  }

  lemma {:induction false} AllGoneStayGone(st: State, list: seq<nat>, b: nat)
    requires Gone(st, b)
    ensures Gone(UninstallAll(st, list), b)
    decreases |list|
  {
    if list == [] {
    } else {
      GoneStaysGone(st, list[0], b);
      AllGoneStayGone(UninstallHeld(st, list[0]), list[1..], b);
    }
  }

  /** And afterwards every archive of the list is gone, even one whose row an earlier one took
      along. */
  lemma {:induction false} SupersededAreGone(st: State, base: Disk, list: seq<nat>, i: nat)
    requires Undisturbed(st, base) && AllSuperseded(st, list) && i < |list|
    ensures Gone(UninstallAll(st, list), list[i])
    decreases |list|
  {
    FirstIsGone(st, base, list);
    if i == 0 {
      AllGoneStayGone(UninstallHeld(st, list[0]), list[1..], list[0]);
    } else {
      SupersededAreGone(UninstallHeld(st, list[0]), base, list[1..], i - 1);
    }
  }
}
