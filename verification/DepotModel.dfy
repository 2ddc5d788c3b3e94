/**
 The darwinup depot as a state and, path by path, what installing and uninstalling an
 archive do to it.  The methods of class Depot walk the files in the program's own order
 and are proved to compute exactly these functions.
 */
module DepotModel {
  import opened Wrappers
  import opened FileSystem
  import opened PathOrder

  /** A row of the files table is keyed by archive serial and path (unique index files_archive_path). */
  datatype Key = Key(arch: nat, path: Path)

  /** node is None for a NO_ENTRY placeholder; base, install and saved are the flags
      BASE_SYSTEM, INSTALL_DATA and ROLLBACK_DATA. */
  datatype Row = Row(node: Option<Node>, base: bool, install: bool, saved: bool)

  type Files = map<Key, Row>

  datatype ArchiveRow = ArchiveRow(rollback: bool, active: bool)

  type Archives = map<nat, ArchiveRow>

  /** The compressed backing stores, by archive. */
  type Store = map<nat, map<Path, Node>>

  datatype State = State(disk: Disk, files: Files, archives: Archives, store: Store, next: nat)

  // ------------------------------------------------------------- table queries

  /** file_preceded_by: the archive with the largest serial below s that has a row for p. */
  function Preceding(files: Files, p: Path, s: nat): (r: Option<nat>)
    ensures r.Some? ==> r.value < s && Key(r.value, p) in files
    ensures forall t :: 0 <= t < s && (r.Some? ==> r.value < t) ==> Key(t, p) !in files
  {
    if s == 0 then None
    else if Key(s - 1, p) in files then Some(s - 1)
    else Preceding(files, p, s - 1)
  }

  /** file_superseded_by finds a row: some archive above s has a row for p. */
  ghost predicate Superseded(files: Files, p: Path, s: nat) {
    exists t :: s < t && Key(t, p) in files
  }

  function PrecedingRow(files: Files, p: Path, s: nat): Option<Row> {
    match Preceding(files, p, s)
    case None => None
    case Some(t) => Some(files[Key(t, p)])
  }

  // ------------------------------------------------------------- analyze_stage

  /** What the three-way diff decides for one staged file. */
  datatype Verdict = Verdict(conflict: bool, install: bool, base: bool, saved: bool, record: bool)

  /** The diff of the file to install, the file on disk, and the row last recorded. */
  function Analyze(file: Node, actual: Option<Node>, recorded: Option<Row>): Verdict {
    var base := recorded.None?;
    var baseCopy := base && actual.Some? && !actual.value.Dir?;
    var preceding := if recorded.None? then actual else recorded.value.node;
    var actualFlags := Compare(Some(file), actual);
    var precedingFlags := Compare(actual, preceding);
    var changed := !actualFlags.Identical();
    var needed := changed && (actualFlags.kind || actualFlags.data);
    var userData := needed && (precedingFlags.kind || precedingFlags.data) && actual.Some?;
    var saved := baseCopy || userData;
    var untouched := actualFlags.Identical() && precedingFlags.Identical();
    Verdict(
      changed && actual.Some? && actualFlags.kind,
      baseCopy || needed,
      base,
      saved,
      (!untouched && !precedingFlags.Identical()) || base || saved)
  }

  function VerdictAt(st: State, stage: Disk, p: Path): Verdict
    requires p in stage
  {
    Analyze(stage[p], Get(st.disk, p), PrecedingRow(st.files, p, st.next))
  }

  /** The rollback archive's serial is the next one, the new archive's the one after. */
  function RollbackSerial(st: State): nat { st.next }

  function ArchiveSerial(st: State): nat { st.next + 1 }

  /** A staged file whose rollback row makes analyze_stage save its parent directories. */
  predicate SavesParents(st: State, stage: Disk, p: Path) {
    p in stage && VerdictAt(st, stage, p).record && p in st.disk
  }

  ghost predicate ParentSaved(st: State, stage: Disk, done: set<Path>, q: Path) {
    exists p :: p in done && SavesParents(st, stage, p) && Ancestor(q, p)
  }

  /** The rollback row of q once the staged files in `done` have been analyzed: what was on
      disk if q itself needed recording, else the STAGED directory if a file below did. */
  ghost function RollbackRow(st: State, stage: Disk, done: set<Path>, q: Path): Option<Row>
    requires q in stage
  {
    var v := VerdictAt(st, stage, q);
    if q in done && v.record then Some(Row(Get(st.disk, q), v.base, false, v.saved))
    else if ParentSaved(st, stage, done, q) then Some(Row(Some(stage[q]), false, false, false))
    else None
  }

  function RowAt(files: Files, k: Key): Option<Row> {
    if k in files then Some(files[k]) else None
  }

  /** The row table entry at k once the staged files in `done` have been analyzed. */
  ghost function RowAfter(st: State, stage: Disk, done: set<Path>, k: Key): Option<Row> {
    if k.path in stage && k.arch == RollbackSerial(st) then
      RollbackRow(st, stage, done, k.path)
    else if k.path in stage && k.path in done && k.arch == ArchiveSerial(st) then
      Some(Row(Some(stage[k.path]), false, VerdictAt(st, stage, k.path).install, false))
    else
      RowAt(st.files, k)
  }

  function KeysOf(s: nat, paths: set<Path>): (keys: set<Key>)
    ensures forall k: Key :: k in keys <==> k.arch == s && k.path in paths
  {
    var keys := set p | p in paths :: Key(s, p);
    assert forall k: Key :: k.arch == s && k.path in paths ==> k == Key(s, k.path) && k in keys;
    keys
  }

  ghost function FilesAfter(st: State, stage: Disk, done: set<Path>): Files {
    var keys := st.files.Keys + KeysOf(RollbackSerial(st), stage.Keys) + KeysOf(ArchiveSerial(st), stage.Keys);
    map k | k in keys && RowAfter(st, stage, done, k).Some? :: RowAfter(st, stage, done, k).value
  }

  // ------------------------------------------------------------- install

  function LowerChar(c: char): char {
    if 'A' <= c <= 'Z' then c - 'A' + 'a' else c
  }

  function Lower(s: string): (r: string)
    ensures |r| == |s|
  {
    seq(|s|, i requires 0 <= i < |s| => LowerChar(s[i]))
  }

  const DEPOT_NAME := ".darwindepot"

  predicate Contains(s: string, part: string) {
    exists j :: 0 <= j <= |s| && part <= s[j..]
  }

  /** strcasestr(path, ".DarwinDepot"); the name holds no slash, so it sits in one component. */
  predicate MentionsDepot(p: Path) {
    exists i :: 0 <= i < |p| && Contains(Lower(p[i]), DEPOT_NAME)
  }

  /** A staged tree the analysis refuses: it would touch the depot itself, or change the
      kind of something on disk. */
  ghost predicate Conflict(st: State, stage: Disk) {
    exists p :: p in stage && (MentionsDepot(p) || VerdictAt(st, stage, p).conflict)
  }

  ghost predicate RollbackNeeded(st: State, stage: Disk) {
    exists p :: p in stage && VerdictAt(st, stage, p).record
  }

  /** The copies backup_file puts into the rollback archive's store. */
  function Saved(st: State, stage: Disk): map<Path, Node> {
    map p | p in stage && p in st.disk && VerdictAt(st, stage, p).saved :: st.disk[p]
  }

  /** What install_file leaves at a path, given what was there. */
  function Placed(file: Node, actual: Option<Node>, install: bool): Node {
    if install || actual.None? then file else SetInfo(actual.value, file)
  }

  /** The disk once the staged files in `done` are in place. */
  function InstallDisk(st: State, stage: Disk, done: set<Path>): Disk {
    map p | p in st.disk.Keys + (stage.Keys * done) ::
      if p in done && p in stage
      then Placed(stage[p], Get(st.disk, p), VerdictAt(st, stage, p).install)
      else st.disk[p]
  }

  /** A rollback archive without rows is deleted again. */
  ghost function InstallArchives(st: State, stage: Disk, active: bool): Archives {
    (if RollbackNeeded(st, stage) then st.archives[RollbackSerial(st) := ArchiveRow(true, active)] else st.archives)
      [ArchiveSerial(st) := ArchiveRow(false, active)]
  }

  /** A rollback store is only written when something was copied into it. */
  function InstallStore(st: State, stage: Disk): Store {
    var saved := Saved(st, stage);
    (if saved != map[] then st.store[RollbackSerial(st) := saved] else st.store)[ArchiveSerial(st) := stage]
  }

  /** Rows and backups committed, the files in `done` in place: the depot in mid-install. */
  ghost function PartialInstall(st: State, stage: Disk, done: set<Path>, active: bool): State {
    State(
      InstallDisk(st, stage, done),
      FilesAfter(st, stage, stage.Keys),
      InstallArchives(st, stage, active),
      InstallStore(st, stage),
      st.next + 2)
  }

  /** A staged tree as extraction delivers it. */
  ghost predicate Extracted(stage: Disk) {
    TreeClosed(stage)
  }

  ghost function Install(st: State, stage: Disk): State {
    if Conflict(st, stage) then st else PartialInstall(st, stage, stage.Keys, true)
  }

  // ------------------------------------------------------------- uninstall

  /** uninstall_file gets as far as looking for the previous version. */
  ghost predicate Current(st: State, a: nat, p: Path) {
    && Key(a, p) in st.files
    && !st.files[Key(a, p)].base
    && p in st.disk
    && Some(st.disk[p]) == st.files[Key(a, p)].node
    && !Superseded(st.files, p, a)
  }

  /** Puts back the preceding version: its stored copy if the data differ, else only its attributes. */
  function Restore(current: Node, preceding: Node, copy: Option<Node>): Node {
    var flags := Compare(Some(current), Some(preceding));
    if flags.data then
      if copy.Some? then copy.value else current
    else if flags.mode || flags.gid || flags.uid then
      SetInfo(current, preceding)
    else
      current
  }

  function StoredCopy(store: Store, s: nat, p: Path): Option<Node> {
    if s in store && p in store[s] then Some(store[s][p]) else None
  }

  /** What uninstall_file for archive a leaves at p. */
  ghost function Reverted(st: State, a: nat, p: Path): Option<Node> {
    if !Current(st, a, p) then Get(st.disk, p)
    else
      match Preceding(st.files, p, a)
      case None => Get(st.disk, p)
      case Some(s) =>
        var pre := st.files[Key(s, p)];
        if pre.node.None? then None
        else Some(Restore(st.disk[p], pre.node.value, StoredCopy(st.store, s, p)))
  }

  ghost predicate Removed(st: State, a: nat, p: Path) {
    p in st.disk && Reverted(st, a, p).None?
  }

  /** p disappears, itself or with a directory above it. */
  ghost predicate Swept(st: State, a: nat, done: set<Path>, p: Path) {
    exists d :: d in done && Removed(st, a, d) && (d == p || Ancestor(d, p))
  }

  /** The disk once the rows of archive a at the paths in `done` are uninstalled. */
  ghost function UninstallDisk(st: State, a: nat, done: set<Path>): Disk {
    map p | p in st.disk && !Swept(st, a, done, p) ::
      if p in done && Reverted(st, a, p).Some? then Reverted(st, a, p).value else st.disk[p]
  }

  /** A row that records absence or user data only for the version above it. */
  predicate GoesAlong(row: Row) {
    !row.base && (row.node.None? || row.saved)
  }

  /** A row that uninstalling archive a deletes besides the archive's own. */
  ghost predicate Discarded(st: State, a: nat, k: Key) {
    && k in st.files
    && Current(st, a, k.path)
    && Preceding(st.files, k.path, a) == Some(k.arch)
    && GoesAlong(st.files[k])
  }

  ghost function RemainingFiles(st: State, a: nat): Files {
    map k | k in st.files && k.arch != a && !Discarded(st, a, k) :: st.files[k]
  }

  /** delete_empty_archives */
  ghost function NonEmpty(archives: Archives, files: Files): Archives {
    map s | s in archives && (exists k :: k in files && k.arch == s) :: archives[s]
  }

  function PathsOf(files: Files, a: nat): set<Path> {
    set k | k in files && k.arch == a :: k.path
  }

  predicate Installed(st: State, a: nat) {
    a in st.archives && !st.archives[a].rollback
  }

  /** uninstall_file fails at p: the bytes of the preceding version are needed and not stored. */
  ghost predicate LacksBytes(st: State, a: nat, p: Path) {
    && Current(st, a, p)
    && Preceding(st.files, p, a).Some?
    && var s := Preceding(st.files, p, a).value;
      var pre := st.files[Key(s, p)].node;
      pre.Some? && Compare(Some(st.disk[p]), pre).data && StoredCopy(st.store, s, p).None?
  }

  /** iterate_files returns the outcome of its last file: in descending order, of the first path. */
  ghost predicate UninstallFails(st: State, a: nat) {
    exists p :: IsFirst(p, PathsOf(st.files, a)) && LacksBytes(st, a, p)
  }

  /** The archive is gone, with the rows and archives that nothing needs any more. */
  ghost function Uninstalled(st: State, a: nat): State {
    var files := RemainingFiles(st, a);
    State(
      UninstallDisk(st, a, PathsOf(st.files, a)),
      files,
      NonEmpty(st.archives - {a}, files),
      st.store - {a},
      st.next)
  }

  function Deactivated(archives: Archives, a: nat): Archives {
    if a in archives then archives[a := archives[a].(active := false)] else archives
  }

  /** The archive deactivated and the files in `done` back: the depot in mid-uninstall. */
  ghost function PartialUninstall(st: State, a: nat, done: set<Path>): State {
    st.(disk := UninstallDisk(st, a, done), archives := Deactivated(st.archives, a))
  }

  /** All files are back, but the archive stays behind, deactivated, with all its rows. */
  ghost function LeftInactive(st: State, a: nat): State {
    PartialUninstall(st, a, PathsOf(st.files, a))
  }

  /** A root that was looked up earlier; its row may have been pruned since. */
  predicate Held(st: State, a: nat) {
    a in st.archives ==> !st.archives[a].rollback
  }

  /** uninstall, given the archive; one whose row was pruned still loses its store. */
  ghost function UninstallHeld(st: State, a: nat): State {
    if UninstallFails(st, a) then LeftInactive(st, a) else Uninstalled(st, a)
  }

  /** uninstall, as the command line has it: only archives that are there are found. */
  ghost function Uninstall(st: State, a: nat): State {
    if Installed(st, a) then UninstallHeld(st, a) else st
  }

  // ------------------------------------------------------------- runs

  datatype Step =
    | DoInstall(stage: Disk)
    | DoUninstall(serial: nat)
    | UserEdit(disk: Disk)

  ghost predicate StepAllowed(step: Step) {
    match step
    case DoInstall(stage) => Extracted(stage)
    case DoUninstall(_) => true
    case UserEdit(disk) => TreeClosed(disk)
  }

  ghost function Next(st: State, step: Step): State {
    match step
    case DoInstall(stage) => Install(st, stage)
    case DoUninstall(serial) => Uninstall(st, serial)
    case UserEdit(disk) => st.(disk := disk)
  }

  ghost function Run(st: State, steps: seq<Step>): State
    decreases |steps|
  {
    if steps == [] then st else Run(Next(st, steps[0]), steps[1..])
  }

  /** A depot just created over a system. */
  function Fresh(base: Disk): State {
    State(base, map[], map[], map[], 1)
  }
}
