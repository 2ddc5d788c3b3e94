/**
 Exactly which roots keep the promise of DepotLayers: if one does not fit, there are uninstalls after which
 the system is not the base system under the roots that are left.
 */
module DepotExact {
  import opened Wrappers
  import opened FileSystem
  import opened DepotModel
  import opened DepotInvariant
  import opened DepotLayers
  import opened DepotRepair

  ghost predicate Shows(st: State, base: Disk, l: Layered) {
    forall p :: Get(st.disk, p) == View(base, l, p)
  }

  predicate OnlyUninstalls(steps: seq<Step>) {
    forall i :: 0 <= i < |steps| ==> steps[i].DoUninstall?
  }

  ghost predicate ShowsAfter(st: State, base: Disk, l: Layered, steps: seq<Step>) {
    Shows(Run(st, steps), base, LayeredRun(base, l, steps))
  }

  /** Whatever is uninstalled from here on, in any order, the disk is as the reference says. */
  ghost predicate StaysLayered(st: State, base: Disk, l: Layered) {
    forall steps :: OnlyUninstalls(steps) ==> ShowsAfter(st, base, l, steps)
  }

  lemma {:induction false} UninstallsFit(base: Disk, l: Layered, steps: seq<Step>)
    requires OnlyUninstalls(steps)
    ensures RunFits(base, l, steps)
    decreases |steps|
  {
    if steps == [] {
    } else {
      UninstallsFit(base, LayeredStep(base, l, steps[0]), steps[1..]);
    }
  }

  lemma UndisturbedStaysLayered(st: State, base: Disk, l: Layered)
    requires Undisturbed(st, base) && Matches(st, l)
    ensures StaysLayered(st, base, l)
  {
    forall steps | OnlyUninstalls(steps)
      ensures ShowsAfter(st, base, l, steps)
    {
      UninstallsFit(base, l, steps);
      RunRefines(st, base, l, steps);
      ViewIsDisk(Run(st, steps), base, LayeredRun(base, l, steps));
    }
  }

  // ------------------------------------------------------------- a path under the newest archive

  /** Archive b has the newest row for p, and it is what is on disk. */
  ghost predicate OnTop(st: State, p: Path, b: nat, n: Node) {
    && Valid(st) && FullyBacked(st)
    && Installed(st, b)
    && RowAt(st.files, Key(b, p)).Some? && st.files[Key(b, p)].node == Some(n)
    && Get(st.disk, p) == Some(n)
    && forall t :: t > b ==> Key(t, p) !in st.files
  }

  lemma OlderIsNotCurrent(st: State, a: nat, p: Path, b: nat)
    requires a < b && Key(b, p) in st.files
    ensures !Current(st, a, p)
  {
  }

  /** The directories above p are archive b's too. */
  lemma NotSweptBelowTop(st: State, a: nat, p: Path, b: nat, n: Node, done: set<Path>)
    requires OnTop(st, p, b, n) && a < b
    ensures !Swept(st, a, done, p)
  {
    forall d | d == p || Ancestor(d, p)
      ensures !Removed(st, a, d)
    {
      assert Ancestor(d, Key(b, p).path) ==> Key(Key(b, p).arch, d) in st.files;
      OlderIsNotCurrent(st, a, d, b);
    }
  }

  /** Of the rows for p, only archive a's own may be gone. */
  ghost predicate KeepsRow(st: State, after: State, a: nat, p: Path, t: nat) {
    && RowAt(after.files, Key(t, p)) == (if t == a && Installed(st, a) then None else RowAt(st.files, Key(t, p)))
    && (Key(t, p) in after.files ==> t in st.archives && t in after.archives && after.archives[t] == st.archives[t])
  }

  ghost predicate KeepsRows(st: State, after: State, a: nat, p: Path) {
    forall t :: KeepsRow(st, after, a, p, t)
  }

  lemma TopRowStays(st: State, a: nat, p: Path, b: nat, t: nat)
    requires Valid(st) && Installed(st, a) && Key(b, p) in st.files && a < b
    ensures KeepsRow(st, Uninstalled(st, a), a, p, t)
  {
    OlderIsNotCurrent(st, a, p, b);
    RemainingRow(st, a, Key(t, p));
    if Key(t, p) in RemainingFiles(st, a) {
      assert Key(t, p) in st.files && Key(t, p).arch in st.archives;
    }
  }

  lemma TopIsKept(st: State, after: State, a: nat, p: Path, b: nat, n: Node)
    requires OnTop(st, p, b, n) && a != b && KeepsRows(st, after, a, p)
    requires Valid(after) && FullyBacked(after) && Get(after.disk, p) == Get(st.disk, p)
    ensures OnTop(after, p, b, n)
  {
    assert KeepsRow(st, after, a, p, b);
    forall t | t > b
      ensures Key(t, p) !in after.files
    {
      assert KeepsRow(st, after, a, p, t);
    }
  }

  lemma TopOnDisk(st: State, a: nat, p: Path, b: nat, n: Node)
    requires OnTop(st, p, b, n) && a < b
    ensures Get(UninstallDisk(st, a, PathsOf(st.files, a)), p) == Get(st.disk, p)
  {
    OlderIsNotCurrent(st, a, p, b);
    NotSweptBelowTop(st, a, p, b, n, PathsOf(st.files, a));
  }

  /** Uninstalling an older archive takes its own row for p and leaves the rest of p alone. */
  lemma TopStays(st: State, a: nat, p: Path, b: nat, n: Node)
    requires OnTop(st, p, b, n) && a < b
    ensures OnTop(Uninstall(st, a), p, b, n) && KeepsRows(st, Uninstall(st, a), a, p)
  {
    if Installed(st, a) {
      UninstallKeepsValid(st, a);
      PruneKeepsBackups(st, a);
      BackedUninstallSucceeds(st, a);
      TopOnDisk(st, a, p, b, n);
      forall t
        ensures KeepsRow(st, Uninstalled(st, a), a, p, t)
      {
        TopRowStays(st, a, p, b, t);
      }
      TopIsKept(st, Uninstalled(st, a), a, p, b, n);
    } else {
      assert forall t :: Key(t, p) in st.files ==> Key(t, p).arch in st.archives;
    }
  }

  // ------------------------------------------------------------- uninstalling a range of serials

  /** The uninstalls of all serials from lo up to hi. */
  function Clearing(lo: nat, hi: nat): (steps: seq<Step>)
    ensures OnlyUninstalls(steps)
    decreases hi - lo
  {
    if lo >= hi then [] else [DoUninstall(lo)] + Clearing(lo + 1, hi)
  }

  ghost function Cleared(st: State, lo: nat, hi: nat): State
    decreases hi - lo
  {
    if lo >= hi then st else Cleared(Uninstall(st, lo), lo + 1, hi)
  }

  lemma {:induction false} ClearedLast(st: State, lo: nat, hi: nat)
    requires lo <= hi
    ensures Cleared(st, lo, hi + 1) == Uninstall(Cleared(st, lo, hi), hi)
    decreases hi - lo
  {
    if lo == hi {
    } else {
      ClearedLast(Uninstall(st, lo), lo + 1, hi);
    }
  }

  /** What each of these uninstalls keeps, all of them keep. */
  lemma {:induction false} KeptByClearing(keeps: (State, nat) -> bool, st: State, lo: nat, hi: nat)
    requires lo <= hi && keeps(st, lo)
    requires forall s: State, x: nat :: keeps(s, x) && x < hi ==> keeps(Uninstall(s, x), x + 1)
    ensures keeps(Cleared(st, lo, hi), hi)
    decreases hi - lo
  {
    if lo == hi {
    } else {
      KeptByClearing(keeps, Uninstall(st, lo), lo + 1, hi);
    }
  }

  lemma {:induction false} ClearedIsRun(st: State, lo: nat, hi: nat)
    ensures Run(st, Clearing(lo, hi)) == Cleared(st, lo, hi)
    decreases hi - lo
  {
    if lo >= hi {
    } else {
      assert Clearing(lo, hi)[1..] == Clearing(lo + 1, hi);
      ClearedIsRun(Uninstall(st, lo), lo + 1, hi);
    }
  }

  lemma {:induction false} ClearedLayers(base: Disk, l: Layered, lo: nat, hi: nat)
    ensures var left := LayeredRun(base, l, Clearing(lo, hi));
      && left.next == l.next
      && left.layers == map s | s in l.layers && !(lo <= s < hi) :: l.layers[s]
    decreases hi - lo
  {
    if lo >= hi {
    } else {
      assert Clearing(lo, hi)[1..] == Clearing(lo + 1, hi);
      ClearedLayers(base, l.(layers := l.layers - {lo}), lo + 1, hi);
    }
  }

  /** n is the version of p below serial `from`. */
  predicate IsVersion(base: Disk, l: Layered, p: Path, from: nat, n: Node) {
    if from == 0 then Get(base, p) == Some(n)
    else from - 1 in l.layers && p in l.layers[from - 1] && l.layers[from - 1][p] == n
  }

  lemma {:induction false} NoLayersFrom(base: Disk, layers: map<nat, Disk>, p: Path, from: nat, s: nat)
    requires from <= s && forall t :: t in layers && from <= t < s ==> p !in layers[t]
    ensures Overlay(base, layers, p, s) == Overlay(base, layers, p, from)
    decreases s
  {
    if s == from {
    } else {
      NoLayersFrom(base, layers, p, from, s - 1);
    }
  }

  /** Once everything from there on is uninstalled, the reference shows that version. */
  lemma VersionShows(base: Disk, l: Layered, stage: Disk, p: Path, from: nat, n: Node)
    requires IsVersion(base, l, p, from, n) && from <= l.next && forall s :: s in l.layers ==> s < l.next
    ensures View(base, LayeredRun(base, Grown(l, stage), Clearing(from, l.next + 2)), p) == Some(n)
  {
    var grown := Grown(l, stage);
    ClearedLayers(base, grown, from, l.next + 2);
    var left := LayeredRun(base, grown, Clearing(from, l.next + 2));
    NoLayersFrom(base, left.layers, p, from, l.next + 2);
  }

  // ------------------------------------------------------------- links

  ghost predicate RollbackRowsAre(st: State, p: Path, from: nat, b: nat, n: Node) {
    forall t :: from <= t < b && Key(t, p) in st.files && t in st.archives && st.archives[t].rollback ==>
      st.files[Key(t, p)].node == Some(n)
  }

  ghost predicate RowsAre(files: Files, p: Path, from: nat, x: nat, n: Node) {
    forall t :: from <= t < x && Key(t, p) in files ==> files[Key(t, p)].node == Some(n)
  }

  lemma {:induction false} BelowIs(st: State, base: Disk, p: Path, from: nat, b: nat, n: Node)
    requires from <= b && RowsAre(st.files, p, from, b, n) && NewestBelow(st, base, p, from) == Some(n)
    ensures NewestBelow(st, base, p, b) == Some(n)
    decreases b
  {
    if from == b || Key(b - 1, p) in st.files {
    } else {
      BelowIs(st, base, p, from, b - 1, n);
    }
  }

  lemma SameBelow(st: State, after: State, base: Disk, a: nat, p: Path, from: nat)
    requires KeepsRows(st, after, a, p) && from <= a
    ensures NewestBelow(after, base, p, from) == NewestBelow(st, base, p, from)
  {
    forall t: nat | t < from
      ensures RowAt(after.files, Key(t, p)) == RowAt(st.files, Key(t, p))
    {
      assert KeepsRow(st, after, a, p, t);
    }
    SameRowsSamePreceding(after.files, st.files, p, from);
  }

  /** Uninstalling the newest archive puts back the version below, and what it puts back is a
      restored copy of its own file. */
  lemma TopReverts(st: State, base: Disk, p: Path, b: nat, n: Node, below: Node)
    requires OnTop(st, p, b, n) && NewestBelow(st, base, p, b) == Some(below)
    ensures Current(st, b, p)
    ensures exists copy :: Reverted(st, b, p) == Some(Restore(n, below, copy))
    ensures Get(Uninstall(st, b).disk, p) == None || Get(Uninstall(st, b).disk, p) == Reverted(st, b, p)
  {
    var k := Key(b, p);
    assert ShapeOk(false, st.files[k]);
    HasPreceding(st, k);
    var s := Preceding(st.files, p, b).value;
    assert Reverted(st, b, p) == Some(Restore(n, below, StoredCopy(st.store, s, p)));
    assert k.path in PathsOf(st.files, b);
  }

  lemma LinkIsNotRestored(n: Node, below: Node, copy: Option<Node>)
    requires !SamePerms(n, below)
    ensures Restore(n, below, copy) != below
  {
  }

  /** What is left between `from` and x is the version below, and so it will be up to b. */
  ghost predicate Clears(st: State, base: Disk, p: Path, from: nat, b: nat, below: Node, x: nat) {
    && NewestBelow(st, base, p, from) == Some(below)
    && RollbackRowsAre(st, p, from, b, below) && RowsAre(st.files, p, from, x, below)
  }

  lemma OneMoreCleared(st: State, after: State, base: Disk, p: Path, from: nat, b: nat, below: Node, x: nat)
    requires Clears(st, base, p, from, b, below, x) && from <= x < b && KeepsRows(st, after, x, p)
    ensures Clears(after, base, p, from, b, below, x + 1)
  {
    SameBelow(st, after, base, x, p, from);
    forall t | Key(t, p) in after.files
      ensures Key(t, p) in st.files && after.files[Key(t, p)] == st.files[Key(t, p)]
      ensures t in st.archives && t in after.archives && after.archives[t] == st.archives[t]
      ensures t == x ==> st.archives[x].rollback
    {
      assert KeepsRow(st, after, x, p, t);
    }
  }

  /** Archive b's link covers another one that uninstalling it cannot bring back. */
  ghost predicate Covers(st: State, base: Disk, p: Path, b: nat, from: nat, below: Node, x: nat) {
    exists n :: OnTop(st, p, b, n) && !SamePerms(n, below) && Clears(st, base, p, from, b, below, x)
  }

  lemma LastReverts(st: State, base: Disk, p: Path, b: nat, from: nat, below: Node)
    requires Covers(st, base, p, b, from, below, b) && from <= b
    ensures Get(Uninstall(st, b).disk, p) != Some(below)
  {
    var n :| OnTop(st, p, b, n) && !SamePerms(n, below) && Clears(st, base, p, from, b, below, b);
    BelowIs(st, base, p, from, b, below);
    TopReverts(st, base, p, b, n, below);
    var copy :| Reverted(st, b, p) == Some(Restore(n, below, copy));
    LinkIsNotRestored(n, below, copy);
  }

  lemma NextCovers(st: State, base: Disk, p: Path, b: nat, from: nat, below: Node, x: nat)
    requires Covers(st, base, p, b, from, below, x) && from <= x < b
    ensures Covers(Uninstall(st, x), base, p, b, from, below, x + 1)
  {
    var n :| OnTop(st, p, b, n) && !SamePerms(n, below) && Clears(st, base, p, from, b, below, x);
    TopStays(st, x, p, b, n);
    OneMoreCleared(st, Uninstall(st, x), base, p, from, b, below, x);
  }

  lemma LinkStaysWrong(st: State, base: Disk, p: Path, b: nat, from: nat, below: Node)
    requires Covers(st, base, p, b, from, below, from) && from <= b
    ensures Get(Cleared(st, from, b + 1).disk, p) != Some(below)
  {
    var keeps := (s: State, x: nat) => from <= x && Covers(s, base, p, b, from, below, x);
    forall s: State, x: nat | keeps(s, x) && x < b
      ensures keeps(Uninstall(s, x), x + 1)
    {
      NextCovers(s, base, p, b, from, below, x);
    }
    KeptByClearing(keeps, st, from, b);
    LastReverts(Cleared(st, from, b), base, p, b, from, below);
    ClearedLast(st, from, b);
  }

  /** The version of a link that the newest root replaced has no other row above it. */
  lemma LinkClears(st: State, base: Disk, l: Layered, stage: Disk, p: Path, from: nat, n: Node)
    requires Undisturbed(st, base) && Matches(st, l) && Extracted(stage) && !Conflict(st, stage)
    requires p in stage && stage[p].Link? && n.Link? && IsVersion(base, l, p, from, n)
    ensures Clears(Install(st, stage), base, p, from, ArchiveSerial(st), n, from)
  {
    var after := Install(st, stage);
    InstallKeepsValid(st, stage);
    VersionInDepot(st, base, l, stage, p, from, n);
    forall t | from <= t < ArchiveSerial(st) && Key(t, p) in after.files && after.archives[t].rollback
      ensures after.files[Key(t, p)].node == Some(n)
    {
      if t < st.next {
        OldRow(st, stage, Key(t, p));
        OldRollbackRow(st, base, l, p, from, n, t);
      } else {
        RollbackRowIs(st, stage, Key(t, p));
        NewRollbackLink(st, base, l, stage, p, from, n);
      }
    }
  }

  lemma VersionInDepot(st: State, base: Disk, l: Layered, stage: Disk, p: Path, from: nat, n: Node)
    requires RowsKnown(st) && Matches(st, l) && !Conflict(st, stage) && IsVersion(base, l, p, from, n)
    ensures NewestBelow(Install(st, stage), base, p, from) == Some(n) && from <= st.next
  {
    if from > 0 {
      assert RowMatches(st, l, from - 1, p);
      OldRow(st, stage, Key(from - 1, p));
    }
  }

  lemma VersionRow(st: State, base: Disk, l: Layered, p: Path, from: nat, n: Node)
    requires Undisturbed(st, base) && Matches(st, l) && IsVersion(base, l, p, from, n) && n.Link?
    ensures from > 0 ==> from <= st.next && Key(from - 1, p) in st.files
    ensures from > 0 && p in base ==> !base[p].Dir?
  {
    if from > 0 {
      var k := Key(from - 1, p);
      assert RowMatches(st, l, from - 1, p);
      assert RowFits(st.archives[k.arch].rollback, st.files[k], Get(base, p));
      assert k.arch in st.archives;
    }
  }

  lemma OldRollbackRow(st: State, base: Disk, l: Layered, p: Path, from: nat, n: Node, t: nat)
    requires Undisturbed(st, base) && Matches(st, l) && IsVersion(base, l, p, from, n) && n.Link?
    requires from <= t && Key(t, p) in st.files && st.archives[t].rollback
    ensures st.files[Key(t, p)].node == Some(n)
  {
    VersionRow(st, base, l, p, from, n);
    assert RowFits(true, st.files[Key(t, p)], Get(base, p));
  }

  lemma NewRollbackLink(st: State, base: Disk, l: Layered, stage: Disk, p: Path, from: nat, n: Node)
    requires Undisturbed(st, base) && Matches(st, l) && Extracted(stage) && IsVersion(base, l, p, from, n)
    requires n.Link? && p in stage && stage[p].Link? && RollbackRow(st, stage, stage.Keys, p).Some?
    ensures RollbackRow(st, stage, stage.Keys, p).value.node == Some(n)
  {
    KnownIsNotRecorded(st, base, stage, p);
    assert Get(st.disk, p) == Newest(st, base, p);
    VersionRow(st, base, l, p, from, n);
  }

  // ------------------------------------------------------------- directories

  /** The row below archive b's is a copy of its own. */
  ghost predicate RecordedBelow(st: State, d: Path, b: nat, n: Node) {
    && b > 0 && RowAt(st.files, Key(b - 1, d)).Some? && st.files[Key(b - 1, d)].node == Some(n)
    && b - 1 in st.archives && st.archives[b - 1].rollback
  }

  lemma RestoreOfItself(n: Node, copy: Option<Node>)
    ensures Restore(n, n, copy) == n
  {
    CompareIdentical(Some(n), Some(n));
  }

  /** Archive b's directory covers a copy of itself. */
  ghost predicate CoversItself(st: State, d: Path, b: nat, n: Node) {
    OnTop(st, d, b, n) && RecordedBelow(st, d, b, n)
  }

  lemma RecordedReverts(st: State, base: Disk, d: Path, b: nat, n: Node)
    requires CoversItself(st, d, b, n)
    ensures Get(Uninstall(st, b).disk, d) in {None, Some(n)}
  {
    TopReverts(st, base, d, b, n, n);
    var copy :| Reverted(st, b, d) == Some(Restore(n, n, copy));
    RestoreOfItself(n, copy);
  }

  lemma NextCoversItself(st: State, d: Path, b: nat, n: Node, x: nat)
    requires CoversItself(st, d, b, n) && x < b
    ensures CoversItself(Uninstall(st, x), d, b, n)
  {
    TopStays(st, x, d, b, n);
    assert KeepsRow(st, Uninstall(st, x), x, d, b - 1);
  }

  lemma DirStaysWrong(st: State, base: Disk, d: Path, b: nat, n: Node, from: nat)
    requires CoversItself(st, d, b, n) && from <= b
    ensures Get(Cleared(st, from, b + 1).disk, d) in {None, Some(n)}
  {
    var keeps := (s: State, x: nat) => CoversItself(s, d, b, n);
    forall s: State, x: nat | keeps(s, x) && x < b
      ensures keeps(Uninstall(s, x), x + 1)
    {
      NextCoversItself(s, d, b, n, x);
    }
    KeptByClearing(keeps, st, from, b);
    RecordedReverts(Cleared(st, from, b), base, d, b, n);
    ClearedLast(st, from, b);
  }

  lemma RecordedRow(st: State, stage: Disk, d: Path, q: Path)
    requires RowsKnown(st) && d in stage && SavesParents(st, stage, q) && Ancestor(d, q)
    requires !VerdictAt(st, stage, d).record && !Conflict(st, stage)
    ensures RecordedBelow(Install(st, stage), d, ArchiveSerial(st), stage[d])
  {
    assert q in stage.Keys;
    RowsAfterInstall(st, stage, stage.Keys, Key(RollbackSerial(st), d));
    assert RollbackNeeded(st, stage);
  }

  lemma DirIsRecorded(st: State, base: Disk, l: Layered, stage: Disk, d: Path, q: Path)
    requires Undisturbed(st, base) && Matches(st, l) && Extracted(stage) && !Conflict(st, stage)
    requires RecordsDir(base, l, stage, d, q)
    ensures d in stage && stage[d].Dir? && RecordedBelow(Install(st, stage), d, ArchiveSerial(st), stage[d])
  {
    RecordedDir(st, base, l, stage, d, q);
    RecordedRow(st, stage, d, q);
  }

  // ------------------------------------------------------------- roots that do not fit

  lemma StagedIsOnTop(st: State, base: Disk, stage: Disk, p: Path)
    requires Undisturbed(st, base) && Extracted(stage) && !Conflict(st, stage) && p in stage
    requires Get(Install(st, stage).disk, p) == Some(stage[p])
    ensures OnTop(Install(st, stage), p, ArchiveSerial(st), stage[p])
  {
    var after := Install(st, stage);
    InstallKeepsValid(st, stage);
    UndisturbedIsBacked(st, base);
    forall q | q in stage
      ensures EditIsSaved(stage[q], Get(st.disk, q), PrecedingRow(st.files, q, st.next))
    {
      assert Get(st.disk, q) == Newest(st, base, q);
    }
    InstallBacksUp(st, stage);
    FreshRow(st, stage, p);
    assert forall t :: Key(t, p) in after.files ==> Key(t, p).arch in after.archives;
  }

  lemma UndisturbedIsBacked(st: State, base: Disk)
    requires Undisturbed(st, base)
    ensures FullyBacked(st)
  {
    forall k | k in st.files && IsData(st.files[k].node)
      ensures StoredCopy(st.store, k.arch, k.path) == st.files[k].node
    {
      assert RowFits(st.archives[k.arch].rollback, st.files[k], Get(base, k.path));
      assert ShapeOk(st.archives[k.arch].rollback, st.files[k]);
      assert BackedRow(st.archives[k.arch].rollback, st.files[k], StoredCopy(st.store, k.arch, k.path));
    }
  }

  lemma GrownShows(base: Disk, l: Layered, stage: Disk, p: Path)
    requires p in stage
    ensures View(base, Grown(l, stage), p) == Some(stage[p])
  {
  }

  /** A wrong disk after some uninstalls. */
  lemma NotLayered(st: State, base: Disk, l: Layered, steps: seq<Step>, p: Path)
    requires OnlyUninstalls(steps) && Get(Run(st, steps).disk, p) != View(base, LayeredRun(base, l, steps), p)
    ensures !StaysLayered(st, base, l)
  {
    assert !ShowsAfter(st, base, l, steps);
  }

  lemma LinkBreaks(st: State, base: Disk, l: Layered, stage: Disk, p: Path, from: nat, n: Node)
    requires Undisturbed(st, base) && Matches(st, l) && Extracted(stage) && !Conflict(st, stage)
    requires p in stage && IsVersion(base, l, p, from, n) && from <= l.next && !SamePerms(stage[p], n)
    ensures !StaysLayered(Install(st, stage), base, Grown(l, stage))
  {
    var after, grown, b := Install(st, stage), Grown(l, stage), ArchiveSerial(st);
    if Get(after.disk, p) != Some(stage[p]) {
      GrownShows(base, l, stage, p);
      NotLayered(after, base, grown, [], p);
    } else {
      StagedIsOnTop(st, base, stage, p);
      LinkClears(st, base, l, stage, p, from, n);
      LinkStaysWrong(after, base, p, b, from, n);
      ClearedIsRun(after, from, b + 1);
      VersionShows(base, l, stage, p, from, n);
      NotLayered(after, base, grown, Clearing(from, b + 1), p);
    }
  }

  lemma RecordedDirStaysWrong(st: State, base: Disk, l: Layered, stage: Disk, d: Path, q: Path, from: nat)
    requires Undisturbed(st, base) && Matches(st, l) && Extracted(stage) && !Conflict(st, stage)
    requires RecordsDir(base, l, stage, d, q) && from <= ArchiveSerial(st)
    ensures d in stage
    ensures Get(Cleared(Install(st, stage), from, ArchiveSerial(st) + 1).disk, d) in {None, Some(stage[d])}
  {
    DirIsRecorded(st, base, l, stage, d, q);
    InstallShows(st, base, stage, d);
    StagedIsOnTop(st, base, stage, d);
    DirStaysWrong(Install(st, stage), base, d, ArchiveSerial(st), stage[d], from);
  }

  lemma DirBreaks(st: State, base: Disk, l: Layered, stage: Disk, d: Path, q: Path, from: nat, n: Node)
    requires Undisturbed(st, base) && Matches(st, l) && Extracted(stage) && !Conflict(st, stage)
    requires RecordsDir(base, l, stage, d, q)
    requires IsVersion(base, l, d, from, n) && from <= l.next && Get(stage, d) != Some(n)
    ensures !StaysLayered(Install(st, stage), base, Grown(l, stage))
  {
    var after, b := Install(st, stage), ArchiveSerial(st);
    RecordedDirStaysWrong(st, base, l, stage, d, q, from);
    ClearedIsRun(after, from, b + 1);
    VersionShows(base, l, stage, d, from, n);
    NotLayered(after, base, Grown(l, stage), Clearing(from, b + 1), d);
  }

  lemma LinksNotKept(base: Disk, l: Layered, stage: Disk, p: Path) returns (from: nat, n: Node)
    requires p in stage && !LinksKept(base, l, stage, p) && forall s :: s in l.layers ==> s < l.next
    ensures IsVersion(base, l, p, from, n) && from <= l.next && !SamePerms(stage[p], n)
  {
    if p in base && !SamePerms(stage[p], base[p]) {
      from, n := 0, base[p];
    } else {
      var s :| s in l.layers && p in l.layers[s] && !SamePerms(stage[p], l.layers[s][p]);
      from, n := s + 1, l.layers[s][p];
    }
  }

  lemma DirNotKept(base: Disk, l: Layered, stage: Disk, d: Path) returns (from: nat, n: Node)
    requires d in base && !DirKept(base, l, stage, d) && forall s :: s in l.layers ==> s < l.next
    ensures IsVersion(base, l, d, from, n) && from <= l.next && Get(stage, d) != Some(n)
  {
    if Get(stage, d) != Get(base, d) {
      from, n := 0, base[d];
    } else {
      var s :| s in l.layers && d in l.layers[s] && Some(l.layers[s][d]) != Get(base, d);
      from, n := s + 1, l.layers[s][d];
    }
  }

  // ------------------------------------------------------------- exactly

  lemma MisfitBreaks(st: State, base: Disk, l: Layered, stage: Disk)
    requires Undisturbed(st, base) && Matches(st, l) && Extracted(stage) && !Conflict(st, stage)
    requires !Fits(base, l, stage)
    ensures !StaysLayered(Install(st, stage), base, Grown(l, stage))
  {
    if p :| p in stage && !LinksKept(base, l, stage, p) {
      var from, n := LinksNotKept(base, l, stage, p);
      LinkBreaks(st, base, l, stage, p, from, n);
    } else {
      var d, q :| RecordsDir(base, l, stage, d, q) && !DirKept(base, l, stage, d);
      var from, n := DirNotKept(base, l, stage, d);
      DirBreaks(st, base, l, stage, d, q, from, n);
    }
  }

  /** A root that is not refused keeps the promise, whatever is uninstalled after it, exactly if it fits. */
  lemma FitsExactly(st: State, base: Disk, l: Layered, stage: Disk)
    requires Undisturbed(st, base) && Matches(st, l) && Extracted(stage) && !Refused(base, l, stage)
    ensures Fits(base, l, stage) <==> StaysLayered(Install(st, stage), base, Grown(l, stage))
  {
    ViewIsDisk(st, base, l);
    ConflictMatches(st, base, stage, l);
    if Fits(base, l, stage) {
      StepRefines(st, base, l, DoInstall(stage));
      UndisturbedStaysLayered(Install(st, stage), base, Grown(l, stage));
    } else {
      MisfitBreaks(st, base, l, stage);
    }
  }

  /** Installs and uninstalls, and nobody else's edits. */
  ghost predicate NoEdits(steps: seq<Step>) {
    forall i :: 0 <= i < |steps| ==> !steps[i].UserEdit? && StepAllowed(steps[i])
  }

  /** At every point of a run the disk is as the reference says, and would be after any uninstalls. */
  ghost predicate AlwaysLayered(st: State, base: Disk, l: Layered, steps: seq<Step>)
    decreases |steps|
  {
    && StaysLayered(st, base, l)
    && (steps != [] ==> AlwaysLayered(Next(st, steps[0]), base, LayeredStep(base, l, steps[0]), steps[1..]))
  }

  lemma StepFitsExactly(st: State, base: Disk, l: Layered, step: Step)
    requires Undisturbed(st, base) && Matches(st, l) && !step.UserEdit? && StepAllowed(step)
    ensures StepFits(base, l, step) <==> StaysLayered(Next(st, step), base, LayeredStep(base, l, step))
  {
    if StepFits(base, l, step) {
      StepRefines(st, base, l, step);
      UndisturbedStaysLayered(Next(st, step), base, LayeredStep(base, l, step));
    } else {
      ViewIsDisk(st, base, l);
      ConflictMatches(st, base, step.stage, l);
      FitsExactly(st, base, l, step.stage);
    }
  }

  lemma {:induction false} RunFitsExactly(st: State, base: Disk, l: Layered, steps: seq<Step>)
    requires Undisturbed(st, base) && Matches(st, l) && NoEdits(steps)
    ensures RunFits(base, l, steps) <==> AlwaysLayered(st, base, l, steps)
    decreases |steps|
  {
    UndisturbedStaysLayered(st, base, l);
    if steps == [] {
    } else {
      var next, lnext := Next(st, steps[0]), LayeredStep(base, l, steps[0]);
      StepFitsExactly(st, base, l, steps[0]);
      if StepFits(base, l, steps[0]) {
        StepRefines(st, base, l, steps[0]);
        RunFitsExactly(next, base, lnext, steps[1..]);
      }
    }
  }

  /** In a run without edits the disk is always the base system under the installed roots, whatever
      is uninstalled and when, exactly if every root fits. */
  lemma LayeredExactly(base: Disk, steps: seq<Step>)
    requires TreeClosed(base) && NoEdits(steps)
    ensures RunFits(base, NO_LAYERS, steps) <==> AlwaysLayered(Fresh(base), base, NO_LAYERS, steps)
  {
    FreshIsValid(base);
    RunFitsExactly(Fresh(base), base, NO_LAYERS, steps);
  }
}
