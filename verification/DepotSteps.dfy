/**
 The loops of darwinup/Depot.cpp one round at a time: what analyzing, placing or uninstalling
 one more file, in the program's order, adds to what DepotModel says about whole archives.
 */
module DepotSteps {
  import opened Wrappers
  import opened FileSystem
  import opened TextOrder
  import opened PathOrder
  import opened DepotModel
  import opened DepotInvariant
  import opened DepotLayers

  // ------------------------------------------------------------- analyzing

  /** The order in which fts hands out a tree: each file once, directories before their contents. */
  ghost predicate IsWalk(walk: seq<Path>, stage: Disk) {
    && Distinct(walk)
    && (forall p :: p in walk <==> p in stage)
    && (forall i, j :: 0 <= i < |walk| && 0 <= j < |walk| && Ancestor(walk[i], walk[j]) ==> i < j)
  }

  lemma ParentSavedMore(st: State, stage: Disk, done: set<Path>, p: Path, q: Path)
    ensures ParentSaved(st, stage, done + {p}, q) <==>
      ParentSaved(st, stage, done, q) || (SavesParents(st, stage, p) && Ancestor(q, p))
  {
    if ParentSaved(st, stage, done, q) {
      var x :| x in done && SavesParents(st, stage, x) && Ancestor(q, x);
      assert x in done + {p};
    }
  }

  /** The rows that analyzing one more file adds. */
  ghost function RowAfterOne(st: State, stage: Disk, done: set<Path>, p: Path, k: Key): Option<Row>
    requires p in stage
  {
    var v := VerdictAt(st, stage, p);
    if k == Key(ArchiveSerial(st), p) then
      Some(Row(Some(stage[p]), false, v.install, false))
    else if k == Key(RollbackSerial(st), p) then
      if v.record then Some(Row(Get(st.disk, p), v.base, false, v.saved)) else None
    else if k.arch == RollbackSerial(st) && k.path in stage && Ancestor(k.path, p) && SavesParents(st, stage, p)
            && RowAfter(st, stage, done, k).None? then
      Some(Row(Some(stage[k.path]), false, false, false))
    else
      RowAfter(st, stage, done, k)
  }

  lemma AnalyzeStep(st: State, stage: Disk, done: set<Path>, p: Path, k: Key)
    requires p in stage && p !in done
    requires forall q :: q in stage && Ancestor(q, p) ==> q in done
    requires forall x :: x in done ==> !Ancestor(p, x)
    ensures RowAfter(st, stage, done + {p}, k) == RowAfterOne(st, stage, done, p, k)
  {
    if k.path in stage && k.arch == RollbackSerial(st) {
      ParentSavedMore(st, stage, done, p, k.path);
      assert k == Key(k.arch, k.path);
      if k.path == p {
        assert !ParentSaved(st, stage, done, p);
        assert !Ancestor(p, p);
      }
    }
  }

  /** While p is being analyzed, the rows visible below the new archive are the old ones. */
  lemma PrecedingDuringAnalysis(st: State, stage: Disk, done: set<Path>, files: Files, p: Path)
    requires RowsKnown(st) && p in stage && p !in done
    requires forall x :: x in done ==> !Ancestor(p, x)
    requires forall k :: RowAt(files, k) == RowAfter(st, stage, done, k)
    ensures PrecedingRow(files, p, ArchiveSerial(st)) == PrecedingRow(st.files, p, st.next)
  {
    var n := st.next;
    forall t: nat | t < n
      ensures RowAt(files, Key(t, p)) == RowAt(st.files, Key(t, p))
    {
      assert RowAt(files, Key(t, p)) == RowAfter(st, stage, done, Key(t, p));
    }
    SameRowsSamePreceding(files, st.files, p, n);
    assert RowAt(files, Key(n, p)) == RowAfter(st, stage, done, Key(n, p));
    assert !ParentSaved(st, stage, done, p);
    assert Preceding(files, p, n + 1) == Preceding(files, p, n);
  }

  /** The row table once p's parent directories longer than j components are saved. */
  ghost function WithParents(before: Files, stage: Disk, r: nat, p: Path, j: nat, k: Key): Option<Row>
    requires forall q :: Ancestor(q, p) ==> q in stage
  {
    if k.arch == r && Ancestor(k.path, p) && |k.path| > j && k !in before then
      Some(Row(Some(stage[k.path]), false, false, false))
    else
      RowAt(before, k)
  }

  /** The row table once p itself is recorded. */
  ghost function WithFile(before: Files, disk: Disk, stage: Disk, r: nat, p: Path, v: Verdict, k: Key): Option<Row>
    requires p in stage && forall q :: Ancestor(q, p) ==> q in stage
  {
    if k == Key(r + 1, p) then Some(Row(Some(stage[p]), false, v.install, false))
    else if k == Key(r, p) && v.record && k !in before then Some(Row(Get(disk, p), v.base, false, v.saved))
    else if v.record && p in disk then WithParents(before, stage, r, p, 0, k)
    else RowAt(before, k)
  }

  function FirstOf(walk: seq<Path>, i: nat): set<Path>
    requires i <= |walk|
  {
    set p | p in walk[..i]
  }

  lemma OneMore(walk: seq<Path>, i: nat)
    requires i < |walk|
    ensures FirstOf(walk, i + 1) == FirstOf(walk, i) + {walk[i]}
  {
    assert walk[..i + 1] == walk[..i] + [walk[i]];
  }

  ghost predicate NoneRefused(st: State, stage: Disk, done: set<Path>) {
    forall p :: p in done && p in stage ==> !MentionsDepot(p) && !VerdictAt(st, stage, p).conflict
  }

  ghost predicate SomeRecorded(st: State, stage: Disk, done: set<Path>) {
    exists p :: p in done && p in stage && VerdictAt(st, stage, p).record
  }

  lemma OneMoreRecorded(st: State, stage: Disk, done: set<Path>, p: Path)
    requires p in stage
    ensures SomeRecorded(st, stage, done + {p}) <==> SomeRecorded(st, stage, done) || VerdictAt(st, stage, p).record
  {
    if SomeRecorded(st, stage, done) {
      var q :| q in done && q in stage && VerdictAt(st, stage, q).record;
      assert q in done + {p};
    }
    if VerdictAt(st, stage, p).record {
      assert p in done + {p};
    }
  }

  ghost predicate Analyzed(files: Files, st: State, stage: Disk, done: set<Path>) {
    forall k :: RowAt(files, k) == RowAfter(st, stage, done, k)
  }

  lemma WalkOrder(walk: seq<Path>, stage: Disk, i: nat)
    requires IsWalk(walk, stage) && i < |walk|
    ensures walk[i] in stage && walk[i] !in FirstOf(walk, i)
    ensures forall q :: q in stage && Ancestor(q, walk[i]) ==> q in FirstOf(walk, i)
    ensures forall x :: x in FirstOf(walk, i) ==> !Ancestor(walk[i], x)
  {
    forall q | q in stage && Ancestor(q, walk[i])
      ensures q in FirstOf(walk, i)
    {
      var j :| 0 <= j < |walk| && walk[j] == q;
      assert walk[..i][j] == q;
    }
    forall x | x in FirstOf(walk, i)
      ensures !Ancestor(walk[i], x)
    {
      var j :| 0 <= j < i && walk[j] == x;
    }
  }

  lemma RecordedRows(st: State, stage: Disk, done: set<Path>, before: Files, after: Files, p: Path)
    requires p in stage && p !in done && Extracted(stage)
    requires forall q :: q in stage && Ancestor(q, p) ==> q in done
    requires forall x :: x in done ==> !Ancestor(p, x)
    requires forall k :: RowAt(before, k) == RowAfter(st, stage, done, k)
    requires forall k ::
      RowAt(after, k) == WithFile(before, st.disk, stage, RollbackSerial(st), p, VerdictAt(st, stage, p), k)
    ensures forall k :: RowAt(after, k) == RowAfter(st, stage, done + {p}, k)
  {
    forall k
      ensures RowAt(after, k) == RowAfter(st, stage, done + {p}, k)
    {
      AnalyzeStep(st, stage, done, p, k);
      assert RowAt(before, k) == RowAfter(st, stage, done, k);
      assert !ParentSaved(st, stage, done, p);
      assert Ancestor(k.path, p) ==> k.path in stage;
    }
  }

  /** Nothing refused, and everything recorded, among the first i files of the walk. */
  ghost predicate AnalyzedPrefix(files: Files, st: State, stage: Disk, walk: seq<Path>, i: nat, rollbackFiles: nat)
    requires i <= |walk|
  {
    && Analyzed(files, st, stage, FirstOf(walk, i))
    && NoneRefused(st, stage, FirstOf(walk, i))
    && (rollbackFiles > 0 <==> SomeRecorded(st, stage, FirstOf(walk, i)))
  }

  lemma NothingAnalyzed(files: Files, st: State, stage: Disk, walk: seq<Path>)
    requires files == st.files && RowsKnown(st)
    ensures AnalyzedPrefix(files, st, stage, walk, 0, 0)
  {
  }

  lemma PrefixGrows(files: Files, st: State, stage: Disk, walk: seq<Path>, i: nat, rollbackFiles: nat)
    requires i < |walk| && walk[i] in stage
    requires NoneRefused(st, stage, FirstOf(walk, i))
    requires rollbackFiles > 0 <==> SomeRecorded(st, stage, FirstOf(walk, i))
    requires !MentionsDepot(walk[i]) && !VerdictAt(st, stage, walk[i]).conflict
    requires Analyzed(files, st, stage, FirstOf(walk, i) + {walk[i]})
    ensures AnalyzedPrefix(files, st, stage, walk, i + 1,
                           if VerdictAt(st, stage, walk[i]).record then rollbackFiles + 1 else rollbackFiles)
  {
    OneMore(walk, i);
    OneMoreRecorded(st, stage, FirstOf(walk, i), walk[i]);
  }

  lemma SameRows(f: Files, g: Files, st: State, stage: Disk)
    requires Analyzed(f, st, stage, stage.Keys)
    requires g == FilesAfter(st, stage, stage.Keys)
    ensures f == g
  {
    forall k
      ensures RowAt(f, k) == RowAt(g, k)
    {
      RowsAfterInstall(st, stage, stage.Keys, k);
    }
    assert forall k :: k in f <==> RowAt(f, k).Some?;
    assert forall k :: k in g <==> RowAt(g, k).Some?;
    assert forall k :: k in f ==> RowAt(f, k) == Some(f[k]) && RowAt(g, k) == Some(g[k]);
  }

  lemma AnalysisDone(files: Files, st: State, stage: Disk, walk: seq<Path>, rollbackFiles: nat)
    requires IsWalk(walk, stage) && AnalyzedPrefix(files, st, stage, walk, |walk|, rollbackFiles)
    ensures !Conflict(st, stage)
    ensures files == FilesAfter(st, stage, stage.Keys)
    ensures rollbackFiles > 0 <==> RollbackNeeded(st, stage)
  {
    assert walk[..|walk|] == walk;
    assert FirstOf(walk, |walk|) == stage.Keys;
    SameRows(files, FilesAfter(st, stage, stage.Keys), st, stage);
  }

  lemma NoRollbackRow(st: State, stage: Disk, k: Key)
    requires RowsKnown(st) && !RollbackNeeded(st, stage) && RowAfter(st, stage, stage.Keys, k).Some?
    ensures k.arch != RollbackSerial(st)
  {
    FreshSerials(st, RollbackSerial(st), k.path);
    assert k == Key(k.arch, k.path);
    if k.path in stage && RollbackRow(st, stage, stage.Keys, k.path).Some? {
      RollbackArchiveKnown(st, stage, k.path);
    }
  }

  lemma AnalyzedArchives(st: State, stage: Disk, rollbackFiles: nat)
    requires RowsKnown(st) && (rollbackFiles > 0 <==> RollbackNeeded(st, stage))
    ensures rollbackFiles == 0 ==> forall k :: k in FilesAfter(st, stage, stage.Keys) ==> k.arch != RollbackSerial(st)
    ensures var r, a := RollbackSerial(st), ArchiveSerial(st);
      var inserted := st.archives[r := ArchiveRow(true, false)][a := ArchiveRow(false, false)];
      InstallArchives(st, stage, false) == if rollbackFiles == 0 then inserted - {r} else inserted
  {
    if rollbackFiles == 0 {
      forall k | k in FilesAfter(st, stage, stage.Keys)
        ensures k.arch != RollbackSerial(st)
      {
        RowsAfterInstall(st, stage, stage.Keys, k);
        NoRollbackRow(st, stage, k);
      }
      assert RollbackSerial(st) !in st.archives;
    }
  }

  // ------------------------------------------------------------- backing up and placing

  /** The tables with everything about a root committed. */
  ghost predicate Recorded(st: State, stage: Disk, files: Files, archives: Archives, next: nat) {
    && files == FilesAfter(st, stage, stage.Keys)
    && archives == InstallArchives(st, stage, false)
    && next == st.next + 2
  }

  function Activated(archives: Archives, a: nat): Archives {
    if a in archives then archives[a := archives[a].(active := true)] else archives
  }

  lemma ActivatedArchives(st: State, stage: Disk)
    requires RowsKnown(st)
    ensures Activated(Activated(InstallArchives(st, stage, false), RollbackSerial(st)), ArchiveSerial(st))
      == InstallArchives(st, stage, true)
  {
    assert RollbackSerial(st) !in st.archives;
  }

  /** The archive of serial r + 1, and the rollback archive r if there is one. */
  predicate NewArchives(archives: Archives, r: nat, active: bool) {
    && r + 1 in archives && archives[r + 1] == ArchiveRow(false, active)
    && (r in archives ==> archives[r] == ArchiveRow(true, active))
  }

  lemma ArchivesInserted(st: State, stage: Disk, active: bool)
    requires RowsKnown(st)
    ensures NewArchives(InstallArchives(st, stage, active), st.next, active)
  {
    assert RollbackSerial(st) !in st.archives;
  }

  /** The part of a plan that the first i files of the list make up. */
  function Part(plan: Disk, list: seq<Path>, i: nat): Disk
    requires i <= |list|
  {
    map p | p in list[..i] && p in plan :: plan[p]
  }

  lemma UpdatesCommute<K, V>(m: map<K, V>, j: K, u: V, k: K, v: V)
    requires j != k
    ensures m[j := u][k := v] == m[k := v][j := u]
  {
  }

  lemma UpdateLast<K, V>(m: map<K, V>, n: map<K, V>, k: K, v: V)
    ensures (m + n)[k := v] == m + n[k := v]
  {
  }

  lemma PartGrows(plan: Disk, list: seq<Path>, i: nat)
    requires i < |list|
    ensures Part(plan, list, i + 1) ==
      if list[i] in plan then Part(plan, list, i)[list[i] := plan[list[i]]] else Part(plan, list, i)
    ensures list[i] in plan ==> list[i] in Part(plan, list, i + 1)
  {
    assert list[..i + 1] == list[..i] + [list[i]];
  }

  lemma PartWhole(plan: Disk, list: seq<Path>)
    requires forall p :: p in plan ==> p in list
    ensures Part(plan, list, |list|) == plan
  {
    assert list[..|list|] == list;
  }

  /** The order of the path column, over the staged paths. */
  ghost predicate InPathOrder(list: seq<Path>, stage: Disk) {
    && Distinct(list)
    && (forall p :: p in list <==> p in stage)
    && (forall i, j :: 0 <= i < j < |list| ==> Leq(PathText(list[i]), PathText(list[j])))
  }

  /** In ascending path order a file's directories are placed before it. */
  lemma PlacingOrder(list: seq<Path>, stage: Disk, i: nat)
    requires InPathOrder(list, stage) && Extracted(stage) && i < |list|
    ensures list[i] in stage && list[i] !in FirstOf(list, i)
    ensures forall q :: Ancestor(q, list[i]) ==> q in FirstOf(list, i)
  {
    forall q | Ancestor(q, list[i])
      ensures q in FirstOf(list, i)
    {
      assert q in stage;
      var j :| 0 <= j < |list| && list[j] == q;
      AncestorsFirst(q, list[i]);
      assert list[..i][j] == q;
    }
  }

  predicate PlannedRow(row: Row, actual: Option<Node>, placed: Node) {
    && row.node.Some? && (row.install || actual.Some?)
    && (actual.Some? ==> SameKind(actual.value, row.node.value))
    && placed == Placed(row.node.value, actual, row.install)
  }

  /** What placing the rows of archive a relies on, and what it makes of the disk before it. */
  ghost predicate Planned(files: Files, a: nat, plan: Disk, before: Disk) {
    && (forall p :: Key(a, p) in files <==> p in plan)
    && (forall p :: p in plan ==> PlannedRow(files[Key(a, p)], Get(before, p), plan[p]))
    && TreeClosed(plan)
  }

  /** When its turn comes, a file is as it was and its directories are in place. */
  lemma PlacingReady(before: Disk, plan: Disk, list: seq<Path>, i: nat)
    requires InPathOrder(list, plan) && TreeClosed(plan) && i < |list|
    requires list[i] in plan && list[i] !in FirstOf(list, i)
    requires forall q :: Ancestor(q, list[i]) ==> q in FirstOf(list, i)
    ensures var disk := before + Part(plan, list, i);
      && Get(disk, list[i]) == Get(before, list[i])
      && forall k :: 0 < k < |list[i]| ==> list[i][..k] in disk && disk[list[i][..k]].Dir?
  {
    forall k | 0 < k < |list[i]|
      ensures list[i][..k] in Part(plan, list, i) && Part(plan, list, i)[list[i][..k]].Dir?
    {
      assert Ancestor(list[i][..k], list[i]);
    }
  }

  /** How far a loop gets that is stopped, or not. */
  function UpTo(list: seq<Path>, stop: Option<nat>): (n: nat)
    ensures n <= |list|
  {
    if stop.Some? && stop.value < |list| then stop.value else |list|
  }

  ghost function StagedRow(st: State, stage: Disk, p: Path): Option<Row>
    requires p in stage
  {
    Some(Row(Some(stage[p]), false, VerdictAt(st, stage, p).install, false))
  }

  lemma CommittedArchiveRow(st: State, stage: Disk, p: Path)
    requires RowsKnown(st)
    ensures RowAfter(st, stage, stage.Keys, Key(ArchiveSerial(st), p)) ==
      if p in stage then StagedRow(st, stage, p) else None
  {
    FreshSerials(st, ArchiveSerial(st), p);
  }

  lemma CommittedRollbackRow(st: State, stage: Disk, p: Path)
    requires RowsKnown(st) && !Conflict(st, stage)
    ensures var row := RowAfter(st, stage, stage.Keys, Key(RollbackSerial(st), p));
      p in Saved(st, stage) <==> row.Some? && row.value.saved
  {
    FreshSerials(st, RollbackSerial(st), p);
    if p in stage && RollbackRow(st, stage, stage.Keys, p).Some? {
      RollbackRowShape(st, stage, p);
    }
  }

  /** The rows of the rollback archive say exactly which files to copy. */
  ghost predicate SavedRows(files: Files, disk: Disk, r: nat, saved: map<Path, Node>) {
    && (forall p :: p in saved <==> Key(r, p) in files && files[Key(r, p)].saved)
    && (forall p :: p in saved ==> p in disk && saved[p] == disk[p])
  }

  /** The committed rows say what to copy... */
  lemma CommittedSaved(st: State, stage: Disk, files: Files)
    requires RowsKnown(st) && !Conflict(st, stage) && files == FilesAfter(st, stage, stage.Keys)
    ensures SavedRows(files, st.disk, RollbackSerial(st), Saved(st, stage))
  {
    var r := RollbackSerial(st);
    forall p
      ensures p in Saved(st, stage) <==> Key(r, p) in files && files[Key(r, p)].saved
    {
      RowsAfterInstall(st, stage, stage.Keys, Key(r, p));
      CommittedRollbackRow(st, stage, p);
    }
  }

  /** What installing the stage makes of the staged paths. */
  function PlanOf(st: State, stage: Disk): Disk {
    map p | p in stage :: Placed(stage[p], Get(st.disk, p), VerdictAt(st, stage, p).install)
  }

  lemma PlanClosed(st: State, stage: Disk)
    requires TreeClosed(st.disk) && Extracted(stage) && !Conflict(st, stage)
    ensures TreeClosed(PlanOf(st, stage))
  {
    InstallDiskClosed(st, stage, stage.Keys);
    assert forall p :: p in PlanOf(st, stage) ==> InstallDisk(st, stage, stage.Keys)[p] == PlanOf(st, stage)[p];
  }

  lemma PlanIsSound(st: State, stage: Disk, p: Path)
    requires p in stage && !Conflict(st, stage)
    ensures PlannedRow(StagedRow(st, stage, p).value, Get(st.disk, p), PlanOf(st, stage)[p])
  {
    CompareIdentical(Some(stage[p]), Get(st.disk, p));
    if p in st.disk {
      StagedKind(st, stage, p);
    }
  }

  /** ...and what to place. */
  lemma CommittedPlan(st: State, stage: Disk, files: Files)
    requires RowsKnown(st) && TreeClosed(st.disk) && Extracted(stage) && !Conflict(st, stage)
    requires files == FilesAfter(st, stage, stage.Keys)
    ensures Planned(files, ArchiveSerial(st), PlanOf(st, stage), st.disk)
    ensures forall p :: p in stage ==> files[Key(ArchiveSerial(st), p)].node == Some(stage[p])
  {
    var a := ArchiveSerial(st);
    forall p
      ensures RowAt(files, Key(a, p)) == if p in stage then StagedRow(st, stage, p) else None
      ensures p in stage ==> PlannedRow(StagedRow(st, stage, p).value, Get(st.disk, p), PlanOf(st, stage)[p])
    {
      RowsAfterInstall(st, stage, stage.Keys, Key(a, p));
      CommittedArchiveRow(st, stage, p);
      if p in stage {
        PlanIsSound(st, stage, p);
      }
    }
    assert forall p :: RowAt(files, Key(a, p)).Some? <==> Key(a, p) in files;
    PlanClosed(st, stage);
  }

  lemma PlannedAt(st: State, stage: Disk, list: seq<Path>, n: nat, p: Path)
    requires InPathOrder(list, stage) && n <= |list|
    ensures Get(InstallDisk(st, stage, FirstOf(list, n)), p) == Get(st.disk + Part(PlanOf(st, stage), list, n), p)
  {
    assert p in FirstOf(list, n) <==> p in list[..n];
    assert p in list[..n] ==> p in list;
  }

  lemma PlannedDisk(st: State, stage: Disk, list: seq<Path>, n: nat)
    requires InPathOrder(list, stage) && n <= |list|
    ensures InstallDisk(st, stage, FirstOf(list, n)) == st.disk + Part(PlanOf(st, stage), list, n)
  {
    forall p
      ensures Get(InstallDisk(st, stage, FirstOf(list, n)), p) == Get(st.disk + Part(PlanOf(st, stage), list, n), p)
    {
      PlannedAt(st, stage, list, n, p);
    }
    SameDisk(InstallDisk(st, stage, FirstOf(list, n)), st.disk + Part(PlanOf(st, stage), list, n));
  }

  lemma AllPlanned(list: seq<Path>, stage: Disk)
    requires InPathOrder(list, stage)
    ensures FirstOf(list, |list|) == stage.Keys
  {
    assert list[..|list|] == list;
  }

  /** Whatever is placed has its directories placed before it. */
  lemma PlacedIsClosed(list: seq<Path>, stage: Disk, n: nat)
    requires InPathOrder(list, stage) && Extracted(stage) && n <= |list|
    ensures ClosedPart(stage, FirstOf(list, n))
  {
    forall q, p | p in FirstOf(list, n) && Ancestor(q, p)
      ensures q in FirstOf(list, n)
    {
      var i :| 0 <= i < n && list[i] == p;
      PlacingOrder(list, stage, i);
      var j :| 0 <= j < i && list[j] == q;
      assert list[..n][j] == q;
    }
  }

  /** The stores in the order in which they are compressed. */
  function BackedUpStore(st: State, stage: Disk): Store {
    var store := st.store[ArchiveSerial(st) := stage];
    if Saved(st, stage) != map[] then store[RollbackSerial(st) := Saved(st, stage)] else store
  }

  /** The tables as install leaves them, step by step. */
  lemma InstallInParts(st: State, stage: Disk, list: seq<Path>, n: nat, active: bool)
    requires RowsKnown(st) && InPathOrder(list, stage) && n <= |list|
    ensures PartialInstall(st, stage, FirstOf(list, n), active) ==
      State(st.disk + Part(PlanOf(st, stage), list, n),
            FilesAfter(st, stage, stage.Keys),
            InstallArchives(st, stage, active),
            BackedUpStore(st, stage),
            st.next + 2)
  {
    PlannedDisk(st, stage, list, n);
    UpdatesCommute(st.store, RollbackSerial(st), Saved(st, stage), ArchiveSerial(st), stage);
  }

  // ------------------------------------------------------------- uninstalling

  datatype FileChange = Keep | Drop | Put(node: Node)

  predicate NeedsCopy(current: Option<Node>, wanted: Option<Node>) {
    wanted.Some? && Compare(current, wanted).data
  }

  function ChangeTo(current: Node, wanted: Option<Node>, copy: Option<Node>): FileChange {
    match wanted
    case None => Drop
    case Some(n) => Put(Restore(current, n, copy))
  }

  ghost function ChangeAt(st: State, a: nat, p: Path): FileChange {
    if !Current(st, a, p) || Preceding(st.files, p, a).None? then Keep
    else
      var s := Preceding(st.files, p, a).value;
      ChangeTo(st.disk[p], st.files[Key(s, p)].node, StoredCopy(st.store, s, p))
  }

  function RemoveFrom(disk: Disk, p: Path): Disk {
    if p in disk && disk[p].Dir? then map q | q in disk && q != p && !Ancestor(p, q) :: disk[q] else disk - {p}
  }

  function Apply(disk: Disk, p: Path, c: FileChange): Disk
  {
    match c
    case Keep => disk
    case Drop => RemoveFrom(disk, p)
    case Put(n) => disk[p := n]
  }

  predicate HasContents(disk: Disk, p: Path) {
    p in disk && disk[p].Dir? && exists q :: q in disk && Ancestor(p, q)
  }

  predicate SameKindBelow(files: Files, a: nat, p: Path)
    requires Key(a, p) in files
  {
    var row, pre := files[Key(a, p)], PrecedingRow(files, p, a);
    pre.Some? && pre.value.node.Some? && row.node.Some? ==> SameKind(row.node.value, pre.value.node.value)
  }

  /** Descending order of the path column, over the rows of one archive. */
  ghost predicate ReverseOrder(list: seq<Path>, files: Files, a: nat) {
    && Distinct(list)
    && (forall p :: p in list <==> Key(a, p) in files)
    && (forall i, j :: 0 <= i < j < |list| ==> Leq(PathText(list[j]), PathText(list[i])))
  }

  /** When its turn comes, no directory above a file is gone and everything below it is done. */
  lemma RemovalOrder(list: seq<Path>, files: Files, a: nat, i: nat)
    requires ReverseOrder(list, files, a) && i < |list|
    ensures Key(a, list[i]) in files && list[i] !in FirstOf(list, i)
    ensures forall d :: d in FirstOf(list, i) ==> !Ancestor(d, list[i])
    ensures forall q :: Key(a, q) in files && Ancestor(list[i], q) ==> q in FirstOf(list, i)
  {
    forall d | d in FirstOf(list, i)
      ensures !Ancestor(d, list[i])
    {
      var j :| 0 <= j < i && list[j] == d;
      if Ancestor(d, list[i]) {
        AncestorsFirst(d, list[i]);
      }
    }
    forall q | Key(a, q) in files && Ancestor(list[i], q)
      ensures q in FirstOf(list, i)
    {
      var j :| 0 <= j < |list| && list[j] == q;
      AncestorsFirst(list[i], q);
      assert list[..i][j] == q;
    }
  }

  lemma UninstallReady(st: State, a: nat, done: set<Path>, p: Path)
    requires Valid(st) && Installed(st, a) && Key(a, p) in st.files
    requires p !in done && forall d :: d in done ==> !Ancestor(d, p)
    ensures Get(UninstallDisk(st, a, done), p) == Get(st.disk, p)
    ensures p in st.disk ==>
      forall k :: 0 < k < |p| ==>
        p[..k] in UninstallDisk(st, a, done) && UninstallDisk(st, a, done)[p[..k]].Dir?
    ensures Preceding(st.files, p, a).Some? && SameKindBelow(st.files, a, p)
  {
    UninstallDiskClosed(st, a, done);
    if p in st.disk {
      forall k | 0 < k < |p|
        ensures p[..k] in UninstallDisk(st, a, done) && UninstallDisk(st, a, done)[p[..k]].Dir?
      {
        assert Ancestor(p[..k], p);
      }
    }
    assert ShapeOk(false, st.files[Key(a, p)]);
    HasPreceding(st, Key(a, p));
    assert KindAgrees(st.files, Key(a, p));
  }

  lemma ChangeIsReverted(st: State, a: nat, p: Path)
    ensures Removed(st, a, p) <==> ChangeAt(st, a, p).Drop?
    ensures Reverted(st, a, p) == match ChangeAt(st, a, p)
      case Keep => Get(st.disk, p)
      case Drop => None
      case Put(n) => Some(n)
    ensures !ChangeAt(st, a, p).Keep? ==> p in st.disk
  {
  }

  lemma SweptOneMore(st: State, a: nat, done: set<Path>, p: Path, x: Path)
    ensures Swept(st, a, done + {p}, x) <==>
      Swept(st, a, done, x) || (Removed(st, a, p) && (p == x || Ancestor(p, x)))
  {
    if Swept(st, a, done, x) {
      var d :| d in done && Removed(st, a, d) && (d == x || Ancestor(d, x));
      assert d in done + {p};
    }
    if Removed(st, a, p) && (p == x || Ancestor(p, x)) {
      assert p in done + {p};
    }
  }

  lemma UninstallOneMoreAt(st: State, a: nat, done: set<Path>, p: Path, x: Path)
    requires TreeClosed(st.disk) && p !in done && !Swept(st, a, done, p)
    ensures Get(UninstallDisk(st, a, done + {p}), x) == Get(Apply(UninstallDisk(st, a, done), p, ChangeAt(st, a, p)), x)
  {
    ChangeIsReverted(st, a, p);
    SweptOneMore(st, a, done, p, x);
  }

  lemma UninstallOneMore(st: State, a: nat, done: set<Path>, p: Path)
    requires TreeClosed(st.disk) && p !in done && forall d :: d in done ==> !Ancestor(d, p)
    ensures Get(UninstallDisk(st, a, done), p) == Get(st.disk, p)
    ensures UninstallDisk(st, a, done + {p}) == Apply(UninstallDisk(st, a, done), p, ChangeAt(st, a, p))
  {
    var before, after := UninstallDisk(st, a, done), UninstallDisk(st, a, done + {p});
    assert !Swept(st, a, done, p);
    forall x
      ensures Get(after, x) == Get(Apply(before, p, ChangeAt(st, a, p)), x)
    {
      UninstallOneMoreAt(st, a, done, p, x);
    }
    SameDisk(after, Apply(before, p, ChangeAt(st, a, p)));
  }

  ghost function DiscardedAt(st: State, a: nat, p: Path): set<Key> {
    set k | k in st.files && k.path == p && Discarded(st, a, k)
  }

  ghost function DiscardedIn(st: State, a: nat, done: set<Path>): set<Key> {
    set k | k in st.files && k.path in done && Discarded(st, a, k)
  }

  lemma DiscardedOneMore(st: State, a: nat, done: set<Path>, p: Path)
    ensures DiscardedIn(st, a, done + {p}) == DiscardedIn(st, a, done) + DiscardedAt(st, a, p)
  {
  }

  /** Nothing that decides about a file changes before its turn. */
  lemma SameChange(st: State, a: nat, p: Path, now: State)
    requires now.files == st.files && Get(now.disk, p) == Get(st.disk, p)
    ensures Current(now, a, p) <==> Current(st, a, p)
    ensures Current(st, a, p) ==> now.disk[p] == st.disk[p]
    ensures DiscardedAt(now, a, p) == DiscardedAt(st, a, p)
  {
    assert Current(now, a, p) <==> Current(st, a, p);
    forall k: Key | k.path == p
      ensures Discarded(now, a, k) <==> Discarded(st, a, k)
    {
    }
  }

  /** A file that cannot be restored has no row that goes along. */
  lemma FailingDiscardsNothing(st: State, a: nat, p: Path)
    requires Tables(st)
    ensures LacksBytes(st, a, p) ==> DiscardedAt(st, a, p) == {}
  {
    if LacksBytes(st, a, p) {
      FailingKeepsRow(st, a, p);
    }
  }

  lemma LastIsFirst(st: State, a: nat, list: seq<Path>)
    requires ReverseOrder(list, st.files, a) && |list| > 0
    ensures IsFirst(list[|list| - 1], PathsOf(st.files, a))
  {
    var last := list[|list| - 1];
    assert Key(a, last) in st.files && Key(a, last).path in PathsOf(st.files, a);
    forall q | q in PathsOf(st.files, a)
      ensures Leq(PathText(last), PathText(q))
    {
      var k :| k in st.files && k.arch == a && k.path == q;
      assert k == Key(a, q);
      var j :| 0 <= j < |list| && list[j] == q;
      LeqTotal(PathText(q), PathText(q));
    }
  }

  /** The outcome of the last file is the outcome of the uninstall. */
  lemma LastDecides(st: State, a: nat, list: seq<Path>)
    requires ReverseOrder(list, st.files, a)
    ensures UninstallFails(st, a) <==> |list| > 0 && LacksBytes(st, a, list[|list| - 1])
  {
    if |list| > 0 {
      LastIsFirst(st, a, list);
      if UninstallFails(st, a) {
        var p :| IsFirst(p, PathsOf(st.files, a)) && LacksBytes(st, a, p);
        OneFirst(p, list[|list| - 1], PathsOf(st.files, a));
      }
    } else {
      assert forall p :: p in PathsOf(st.files, a) ==> Key(a, p) in st.files;
    }
  }

  /** One more file: the disk, the row below it, the rows that go along. */
  lemma UninstallStep(st: State, a: nat, list: seq<Path>, i: nat)
    requires Valid(st) && Installed(st, a) && ReverseOrder(list, st.files, a) && i < |list|
    ensures Key(a, list[i]) in st.files
    ensures var disk := UninstallDisk(st, a, FirstOf(list, i));
      && Get(disk, list[i]) == Get(st.disk, list[i])
      && UninstallDisk(st, a, FirstOf(list, i + 1)) == Apply(disk, list[i], ChangeAt(st, a, list[i]))
      && (list[i] in st.disk ==>
            forall k :: 0 < k < |list[i]| ==> list[i][..k] in disk && disk[list[i][..k]].Dir?)
    ensures Preceding(st.files, list[i], a).Some? && SameKindBelow(st.files, a, list[i])
    ensures DiscardedIn(st, a, FirstOf(list, i + 1)) ==
      DiscardedIn(st, a, FirstOf(list, i)) + DiscardedAt(st, a, list[i])
  {
    RemovalOrder(list, st.files, a, i);
    UninstallReady(st, a, FirstOf(list, i), list[i]);
    OneMore(list, i);
    UninstallOneMore(st, a, FirstOf(list, i), list[i]);
    DiscardedOneMore(st, a, FirstOf(list, i), list[i]);
  }

  /** A directory among those done was removed together with something that was not a's to remove. */
  ghost predicate FallbackIn(st: State, a: nat, done: set<Path>) {
    exists d, x :: d in done && Removed(st, a, d) && Ancestor(d, x) && x in st.disk && !Removed(st, a, x)
  }

  lemma StillThere(st: State, a: nat, done: set<Path>, p: Path, x: Path)
    requires !FallbackIn(st, a, done) && Ancestor(p, x)
    requires forall q :: Key(a, q) in st.files && Ancestor(p, q) ==> q in done
    ensures x in UninstallDisk(st, a, done) <==> x in st.disk && !Removed(st, a, x)
  {
    if x in st.disk && Removed(st, a, x) {
      assert Swept(st, a, done, x);
    }
  }

  lemma FallbackOneMore(st: State, a: nat, list: seq<Path>, i: nat)
    requires Valid(st) && Installed(st, a) && ReverseOrder(list, st.files, a) && i < |list|
    ensures FallbackIn(st, a, FirstOf(list, i + 1)) <==>
      || FallbackIn(st, a, FirstOf(list, i))
      || (ChangeAt(st, a, list[i]).Drop? && HasContents(UninstallDisk(st, a, FirstOf(list, i)), list[i]))
  {
    var p, done := list[i], FirstOf(list, i);
    OneMore(list, i);
    RemovalOrder(list, st.files, a, i);
    UninstallReady(st, a, done, p);
    ChangeIsReverted(st, a, p);
    if FallbackIn(st, a, done) {
      var d, x :| d in done && Removed(st, a, d) && Ancestor(d, x) && x in st.disk && !Removed(st, a, x);
      assert d in FirstOf(list, i + 1);
    } else if Removed(st, a, p) {
      forall x | Ancestor(p, x)
        ensures x in UninstallDisk(st, a, done) <==> x in st.disk && !Removed(st, a, x)
      {
        StillThere(st, a, done, p, x);
      }
    }
  }

  lemma NothingUninstalled(st: State, a: nat)
    ensures UninstallDisk(st, a, {}) == st.disk && DiscardedIn(st, a, {}) == {} && !FallbackIn(st, a, {})
  {
  }

  lemma AllUninstalled(st: State, a: nat, list: seq<Path>)
    requires ReverseOrder(list, st.files, a)
    ensures FirstOf(list, |list|) == PathsOf(st.files, a)
    ensures FallbackIn(st, a, FirstOf(list, |list|)) <==> FallbackFires(st, a)
  {
    assert list[..|list|] == list;
    assert forall p :: Key(a, p) in st.files ==> Key(a, p).path in PathsOf(st.files, a);
    if FallbackFires(st, a) {
      var d, x :| Removed(st, a, d) && Ancestor(d, x) && x in st.disk && !Removed(st, a, x);
      assert d in FirstOf(list, |list|);
    }
  }

  lemma RowsInParts(st: State, a: nat)
    ensures RemainingFiles(st, a) ==
      map k | k in st.files - DiscardedIn(st, a, PathsOf(st.files, a)) && k.arch != a :: st.files[k]
  {
    forall k | Discarded(st, a, k)
      ensures k.path in PathsOf(st.files, a)
    {
      assert Key(a, k.path) in st.files && Key(a, k.path).path in PathsOf(st.files, a);
    }
  }

  /** The tables as uninstall leaves them, step by step. */
  lemma UninstallInParts(st: State, a: nat, after: State)
    requires after.disk == UninstallDisk(st, a, PathsOf(st.files, a))
    requires after.files ==
      map k | k in st.files - DiscardedIn(st, a, PathsOf(st.files, a)) && k.arch != a :: st.files[k]
    requires after.archives == NonEmpty(Deactivated(st.archives, a) - {a}, after.files)
    requires after.store == st.store - {a} && after.next == st.next
    ensures after == Uninstalled(st, a)
  {
    RowsInParts(st, a);
    assert Deactivated(st.archives, a) - {a} == st.archives - {a};
  }

  ghost predicate OutOfUseAt(st: State, a: nat, p: Path) {
    Key(a, p) in st.files && OutOfUse(st, Key(a, p))
  }
}
