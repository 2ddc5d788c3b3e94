# A verified model of darwinbuild's stateful cores

darwinbuild builds and installs Darwin projects.  This project models the parts of it that keep state
and make promises about it, and proves those promises.

**The depot** (`FileSystem`, `PathOrder`, `DepotModel`, `DepotNames`, `DepotInvariant`, `DepotLayers`, `DepotRepair`,
`DepotExact`, `DepotResume`, `DepotSteps`, `SerialSets`, `DepotProgram`, `DepotRecovery`). darwinup installs archives ("roots") over a
base system and is to be able to uninstall them in any order, "leaving the system in its original state"
(darwinup/NOTES:21-23). The model has the file system (paths to files, links and directories with contents
and attributes), the `files` and `archives` tables, the compressed and the expanded backing stores, and the
serial counter that is never reused. `DepotModel` says path by path what an install and an uninstall make of
this state; class `DepotProgram.Depot` walks the files in the program's own order, with its tables, stores
and transactions as fields, and is proved to compute exactly that. On it rest:

- an invariant of every run of installs, uninstalls and user edits (`DepotInvariant.Valid`);
- `DepotLayers.DepotIsLayered`: without edits, and if every root fits, the disk is always the base system under
  the installed roots, newest on top, and so uninstalling everything restores the original system;
- `DepotExact.LayeredExactly`: that is so at every point of a run, and after any uninstalls from there, *exactly* if
  every root fits (`DepotLayers.Fits`): it gives a link no other permissions than another version of it with the same
  target has, and where it first replaces a file of the base system below a directory that an earlier root had, no
  version of that directory differs from the base system's;
- `DepotRepair.UninstallRepairs` and `InstallThenUninstall`: with edits allowed before it, and with any
  part of the root placed, uninstalling brings back the disk exactly when a condition on each staged file
  holds that can be checked before the install;
- `DepotRecovery.RollBackInstall`: the program stopped anywhere among its files, and then uninstalling, ends
  in the disk and with the result these theorems say;
- exactly when an uninstall fails, and what a failed one leaves;
- `DepotRecovery.ResumeUninstall`: an uninstall stopped between two files and run again ends with the disk and
  the outcome of one run, and in exactly its state while nobody edits files; which rows stay behind otherwise is
  said exactly;
- what becomes of rows, archives, backups and directories, which roots are refused, and which archives are superseded,
  each exactly.

Four facts of the code decide the conditions of these theorems.  A file whose rollback row is recorded has
its *staged* parent directories recorded with it, not the ones on disk (darwinup/Depot.cpp:586-611), so a
root that changes the attributes of a directory it did not bring can leave them changed.
`Symlink::install_info` only sets the owner (darwinup/File.cpp:349), never the permissions.  A file edited
only in its attributes gets a rollback row without its bytes (darwinup/Depot.cpp:534-545).  And a row that
was itself recorded without bytes cannot restore them later.  `DepotRepair.Case` names these cases,
`Safe` is their absence, and `DirectoryAttributesAreLost`, `EditedPermissionsAreLost`, `RecordsWithoutBytes` and
`LinkPermissionsStick` are concrete systems on which they happen, although the design notes promise the original
state.

A fifth fact decides when an uninstall fails.  `iterate_files` returns what its last file returned
(darwinup/Depot.cpp:388-410), and files are uninstalled in descending order of the path column.  So an uninstall
whose first path in that order replaced bytes that are not in store fails (`DepotModel.UninstallFails`): its other
files are put back, the archive stays deactivated with all its rows, and trying again changes nothing.  The same
loss at any other path goes unnoticed and the uninstall succeeds.

**The build sequencer** (`BuildOrder`, `BuildSequence`), darwinbuild/buildorder: a circular queue with a sentinel.  A
project that is itself called `SENTINEL` makes it give up; otherwise it gives up exactly on cycles, and names the
projects that no order can reach.  Its result is that of going through the list round by round
(`BuildOrder.Rounds`), which leaves a list alone that is in order already.
`BuildSequence.Run` is the script with its queries: it reads the words that the dependency walk prints.

**Dependencies** (`Inheritance`, `StringArrays`, `Dependencies`, `Walks`, `DependencyWalk`): lists edited in place along
the inheritance chain, and the depth-first walk that prints them.  The lines printed are determined by the lists: there
is only one answer (`Walks.OneAnswer`).  The order "replace, subtract, add"
comes from sorting the keys as text, so it holds exactly for types whose name sorts after `-`.

**The property store** (`PropertyStore`, `PropertyValues`, `PropertyQueries`, `PropertyReadback`, `PropertyGroups`,
`PropertyFailures`, `PropertyLookup`, `StoredDependencies`, `ProjectDiff`, `StoredProjects`): writing property lists to the tables and reading them back,
looking a property up through inheritance and aliases, and the diff of two builds.  Where SQL leaves the order of rows
open, `PropertyValues.CanRead` says what all may be read.  Array keys are numbers compared as text, so arrays come back
in the text order of their indexes, which is their own order up to ten items.  A dictionary is declared to hold strings or arrays: one of arrays, as `dependencies` is, has
each string of a key once, in any order, and a lone string comes back as an array (`StoredDependencies.StringBecomesArray`).
Text is stored as C strings, up to a NUL.  `PropertyReadback.ReadsBack` says exactly what may be read after a plist
was stored, and `PropertyValues.ValueIsKept` which values come back as they were.  Storing succeeds exactly if all of the
plist can be stored (`PropertyFailures.SucceedsExactly`); since its transaction is committed all the same, what a
failure leaves in the tables is said row by row (`OwnAfterwards`, `InsideAfterwards`).

**Editing a build** (`KeptRows`, `BuildRoundTrip`): a build or one of its projects is read from the tables, printed for
the editor, read from the text and stored again.  Nothing changes in the tables, whatever order the queries return rows
in, exactly if the rows are those of values that come back as they were.

**Printed property lists** (`PropertyList`, `PlistText`, `PlistLayout`, `PlistReader`, `PlistExact`): what `writePlist`
prints, how it is quoted and laid out, and exactly which lists a reader recovers that is written from the format, comments included.  `writePlist` leaves
a string without quotes if it is made of letters, digits, `/`, `.` and `_`, so one that begins with `//` becomes a
comment and is lost.

**The database layer** (`Schema`, `RowBuffer`): schema upgrades, rows packed into memory, the pool of
result rows, and a buffer that grows.  Three results are conditions: an upgrade is as good as a new file
exactly if columns were added in version order; values sit at their columns' offsets exactly if pointers
are as wide as integers or no integer is missing before the last column; and the 32-bit size of the
buffer wraps round exactly when the values leave no room for one more in a buffer of the last size.  A
file of version 0 that has an information table can never be upgraded, and in general `Schema.UpgradesExactly` says
which files can.

**Path compaction** (`PathCompaction`): two algorithms that remove repeated slashes in place.

The base modules are `Wrappers` (optional values), `CStrings` (text up to a NUL) and `TextOrder` (the order of
`strcmp`, `CFStringCompare` and `ORDER BY`, and sorting).

Premises, as in the program's normal use: no force and no dry run, one OS build, system calls succeed,
contents are equal when their digests are.

## Model

| member | source | states |
|---|---|---|
| `FileSystem.CompareIdentical` | darwinup/File.cpp:119-137 | comparing two files finds no difference exactly if they agree in kind, attributes and contents, or are both missing |
| `FileSystem.CompareKinds` | darwinup/File.cpp:119-137 | the mode flag is set for another kind or other permissions, and a missing file differs in kind from any other |
| `DepotInvariant.HasPreceding` | darwinup/Depot.cpp:950-953 | an installed row always has a row below it, as the uninstall loop asserts |
| `DepotInvariant.InstallKeepsValid` | darwinup/Depot.cpp:774-883 | an install keeps the depot in order: base rows are oldest, claimed directories are closed upwards, promised bytes are stored, kinds never change |
| `DepotInvariant.UninstallKeepsValid` | darwinup/Depot.cpp:1021-1104 | so does an uninstall of any serial, whether it succeeds or fails |
| `DepotInvariant.RunKeepsValid` | darwinup/NOTES:15-23 | and every run of installs, uninstalls that succeed or fail, and edits, in any order |
| `DepotInvariant.PrecedingAfterUninstall` | darwinup/DB.cpp:195-220 | when an archive goes, a row laid over one of its rows lies over the row below that one |
| `DepotLayers.DepotIsLayered` | darwinup/NOTES:21-23 | in every run without edits whose roots fit, each path holds what the newest installed archive with that path holds, else what the base system held |
| `DepotLayers.UninstallingAllRestoresSystem` | darwinup/NOTES:21-23 | once no root is installed the disk is the original one |
| `DepotLayers.StepRefines` | darwinup/Depot.cpp:774-1104 | each install or uninstall, refused or not, is one step of the layered reference |
| `DepotLayers.RunRefines` | darwinup/Depot.cpp:774-1104 | and so is every run, from any undisturbed depot |
| `DepotLayers.ConflictMatches` | darwinup/Depot.cpp:437-441 | the depot and the layered reference refuse the same roots |
| `DepotLayers.RefusedExactly` | darwinup/Depot.cpp:437-498 | a root is refused exactly if a name in it holds the letters of ".DarwinDepot", each in either case, or it would change the kind of something on disk, whatever the tables say; any other is installed |
| `DepotNames.MentionedIsInDepot` | darwinup/Depot.cpp:437-441 | searching with everything in small letters finds exactly the names that are something, then ".DarwinDepot" letter by letter in either case, then something |
| `DepotNames.MentionedInText` | darwinup/Depot.cpp:437-441 | searching the path as one text comes to the same as searching its names |
| `DepotInvariant.ArchivesLeft` | darwinup/DB.cpp:337-346 | after a successful uninstall exactly the other archives that still have a file row are listed, with their flags |
| `DepotInvariant.ArchivesKept` | darwinup/Depot.cpp:1073 | after a failed one all archives are listed, and the only change is that the archive is inactive |
| `DepotInvariant.StoresLeft` | darwinup/Depot.cpp:1021-1104 | an uninstall that succeeds takes the archive's own store and no other |
| `DepotLayers.RevertedIsPreceding` | darwinup/Depot.cpp:949-991 | uninstalling a newest file brings back exactly what was recorded below it |
| `DepotLayers.RemovedBelow` | darwinup/Depot.cpp:954-958 | what is below a removed directory is removed in its own right |
| `DepotLayers.RemovesOnlyItsOwn` | darwinup/File.cpp:469-485 | no directory is removed that another installed archive claims, and the recursive delete never finds anything |
| `DepotLayers.SupersededLeavesDisk` | darwinup/Depot.cpp:1314-1355 | an archive judged superseded is uninstalled without any change on disk, edits or not |
| `DepotLayers.SupersededOwnsNothing` | darwinup/Depot.cpp:1314-1355 | an installed archive is superseded exactly if none of its files is the one on disk with no newer row above it, edits or not |
| `DepotLayers.SupersededIsOverlaid` | darwinup/Depot.cpp:1330-1333 | without edits, exactly if newer archives have a row for each of its paths |
| `DepotLayers.InstalledTwice` | darwinup/Depot.cpp:1330-1333 | a root installed twice, or under one with all its paths, is superseded at once, whatever was edited in between |
| `DepotLayers.SupersededStays` | darwinup/Depot.cpp:1314-1355 | uninstalling one superseded archive leaves the others superseded |
| `DepotLayers.SupersededListLeavesDisk` | darwinup/Depot.cpp:1480-1503 | the list computed up front can be uninstalled one after the other without a change on disk |
| `DepotLayers.SupersededAreGone` | darwinup/Depot.cpp:1480-1503 | and then no row, file row or store of any of them is left, even of one whose row was pruned with an earlier one |
| `DepotResume.ResumedUninstall` | darwinup/Depot.cpp:1071-1095 | an uninstall stopped after any number of files and run again: the same outcome and disk as one run, and the same rows but for those that go along with files already changed |
| `DepotResume.UndisturbedResumes` | darwinup/Depot.cpp:1071-1095 | without edits it ends in the very state of one run |
| `DepotExact.FitsExactly` | darwinup/NOTES:21-23 | after installing a root, the disk is layered whatever is uninstalled next, in any order, exactly if the root fits |
| `DepotExact.LayeredExactly` | darwinup/NOTES:21-23 | in a run without edits the disk is layered at every point and after any further uninstalls exactly if every root of the run fits |
| `DepotExact.LinkBreaks` | darwinup/File.cpp:346-364 | a root that changes only the permissions of some version of a link leaves a wrong link on disk, at once or after some uninstalls |
| `DepotExact.DirBreaks` | darwinup/Depot.cpp:586-611 | a root that records a directory of which a version differs from its own leaves a wrong directory on disk after some uninstalls |
| `DepotRepair.UninstallRepairs` | darwinup/Depot.cpp:748-763 | with rows and backups committed and any set of files placed, uninstalling gives the disk before the install exactly if every placed file is safe |
| `DepotRepair.InstallThenUninstall` | darwinup/Depot.cpp:949-1005 | from any depot in order, edited or not, installing and uninstalling is the identity on disk exactly if the root is refused or every staged file is safe |
| `DepotRepair.PlacedComesBack` | darwinup/Depot.cpp:452-611 | one placed path comes back exactly if it is safe |
| `DepotRepair.RowsComeBack` | darwinup/Depot.cpp:998-1101 | the rows after install and uninstall: the old ones, new base-system rows, saved directories and attributes, and no user-data row that is back on disk; but all rows of the install if the first staged path replaced bytes that are not in store |
| `DepotRepair.ArchivesComeBack` | darwinup/Depot.cpp:885-920 | after install and uninstall the archives listed are the old ones and the rollback archive, as far as they still have rows |
| `DepotRepair.RollbackArchiveStays` | darwinup/Depot.cpp:998-1101 | the rollback archive stays in the list exactly if one of its rows is a base-system row or records something other than user data, or if the uninstall failed and there was something to record |
| `DepotRepair.StoresAfterInstall` | darwinup/Depot.cpp:627-708 | an install keeps all stores and adds the one of the root, and the rollback archive's exactly if something was copied into it |
| `DepotRepair.RepairFails` | darwinup/Depot.cpp:388-410 | uninstalling a root, all or part of it placed, fails exactly if its first path in column order was placed over bytes that are not in store |
| `DepotRepair.OnlyTopLevelFilesFail` | darwinup/Depot.cpp:966-1018 | an uninstall fails only at a file right below the prefix, with nothing of the archive below it |
| `DepotResume.FailureRepeats` | darwinup/Depot.cpp:1067-1101 | a failed uninstall fails again, and the second try changes nothing |
| `DepotRepair.BackedUninstallSucceeds` | darwinup/Depot.cpp:966-975 | with the bytes of every row in store every uninstall succeeds |
| `DepotLayers.UninstallSucceeds` | darwinup/Depot.cpp:966-975 | without edits no uninstall fails |
| `DepotRepair.InstallBacksUp` | darwinup/Depot.cpp:534-545 | an install leaves every row with its bytes in store exactly if the edits under it changed data or existence |
| `DepotRepair.PruneKeepsBackups` | darwinup/Depot.cpp:885-920 | pruning after an uninstall drops no bytes a remaining row needs |
| `DepotRepair.RunKeepsBackups` | darwinup/Depot.cpp:845-858 | in every run with such edits each row of a file or link keeps its bytes in store, and every uninstall succeeds |
| `DepotRepair.DirectoryAttributesAreLost` | darwinup/Depot.cpp:586-611 | a system on which a tightened directory stays tightened after the root is uninstalled |
| `DepotRepair.EditedPermissionsAreLost` | darwinup/Depot.cpp:534-545 | a system on which a file edited only in its permissions is not brought back, and the uninstall fails |
| `DepotRepair.RecordsWithoutBytes` | darwinup/Depot.cpp:534-545 | a system on which a root that changed only permissions leaves a row without bytes, so that the next root over it cannot be uninstalled |
| `DepotRepair.LinkPermissionsStick` | darwinup/File.cpp:346-364 | a system on which the permissions of a link stay as a root set them |
| `PathOrder.AncestorsFirst` | darwinup/DB.cpp:391-410 | in descending order of the path column everything below a directory comes before it |
| `PathOrder.TextNamesPath` | darwinup/DB.cpp:391-410 | the path column determines the path, so that the order of a column has one last file |
| `DepotSteps.AnalyzeStep` | darwinup/Depot.cpp:577-615 | analyzing files one by one, directories first, adds up to the rows of the whole stage |
| `DepotSteps.UninstallStep` | darwinup/Depot.cpp:922-1019 | uninstalling files one by one, descending, adds up to the disk and the discarded rows of the whole archive |
| `DepotSteps.LastDecides` | darwinup/Depot.cpp:388-410 | an uninstall fails exactly if its last file fails |
| `DepotSteps.FallbackOneMore` | darwinup/File.cpp:469-485 | one more file makes the recursive delete fire exactly if its directory still has contents |
| `SerialSets.SerialSet.Add` | darwinup/SerialSet.cpp:49-68 | adds a value unless it is there; every other value stays where it is |
| `DepotProgram.Depot.RollbackTransaction` | darwinup/Depot.cpp:826 | puts the tables and the counter back |
| `DepotProgram.Depot.GetFiles` | darwinup/DB.cpp:391-410 | the rows of an archive, each once, in ascending or descending path order |
| `DepotProgram.Depot.FileSupersededBy` | darwinup/DB.cpp:195-220 | finds a row of a newer archive exactly if there is one |
| `DepotProgram.Depot.Rename` | darwinup/File.cpp:168-228 | moves a file from the expanded store to the disk or says why it cannot |
| `DepotProgram.Depot.InstallData` | darwinup/File.cpp:151-234 | puts the stored file in place; tries twice if the archive was not expanded and has a store, else once |
| `DepotProgram.Depot.InstallDirectory` | darwinup/File.cpp:381-467 | makes a directory or takes over the one that is there |
| `DepotProgram.Depot.InstallInfo` | darwinup/File.cpp:268-364 | sets owner and, except for links, permissions |
| `DepotProgram.Depot.Remove` | darwinup/File.cpp:469-485 | removes a file or a directory, with its contents if there are any, and counts that |
| `DepotProgram.Depot.SaveParents` | darwinup/Depot.cpp:586-611 | records the staged directories above a file unless they are recorded |
| `DepotProgram.Depot.RecordFile` | darwinup/Depot.cpp:577-615 | records one staged file and what it replaces |
| `DepotProgram.Depot.AnalyzeOne` | darwinup/Depot.cpp:430-622 | one file of the three-way diff: an error for a name of the depot, another for a change of kind, else recorded |
| `DepotProgram.Depot.AnalyzeStage` | darwinup/Depot.cpp:413-625 | refuses exactly the conflicting roots, else leaves the rows of the whole stage |
| `DepotProgram.Depot.RecordStage` | darwinup/Depot.cpp:792-843 | archives and rows are committed together, or tables and counter are as before |
| `DepotProgram.Depot.CopyFiles` | darwinup/Depot.cpp:627-708 | copies exactly the files whose rows promise their bytes |
| `DepotProgram.Depot.BackupFiles` | darwinup/Depot.cpp:627-708 | the rollback store holds exactly the files whose rows promise their bytes |
| `DepotProgram.Depot.InstallFile` | darwinup/Depot.cpp:711-733 | one file is placed with its data or only its attributes |
| `DepotProgram.Depot.PlaceFiles` | darwinup/Depot.cpp:861-862 | all files are placed, or the first few in path order, and only they |
| `DepotProgram.Depot.InstallUntil` | darwinup/Depot.cpp:774-862 | an install that stops after any number of files leaves rows and backups complete, the archives inactive and exactly those files placed, a refused one leaves nothing |
| `DepotProgram.Depot.Install` | darwinup/Depot.cpp:774-883 | the program computes the model of installing; it fails exactly if a name belongs to the depot or a kind would change, and else leaves the new archives active |
| `DepotProgram.Depot.PutBack` | darwinup/Depot.cpp:954-991 | removes a file or restores the version below it; fails exactly if bytes are needed and not in store |
| `DepotProgram.Depot.UninstallFile` | darwinup/Depot.cpp:922-1019 | one file is left, removed or restored, and its rollback row collected if it goes along; fails exactly if its bytes are needed and not in store |
| `DepotProgram.Depot.UninstallFirst` | darwinup/Depot.cpp:388-410 | the first files of a list are uninstalled one by one; the result is that of the last one |
| `DepotProgram.Depot.UninstallFiles` | darwinup/Depot.cpp:1077-1079 | all files of an archive, or the first few, are uninstalled, children before parents; the result is that of the last one |
| `DepotProgram.Depot.DeleteRows` | darwinup/Depot.cpp:1084-1087 | deletes exactly the collected rows |
| `DepotProgram.Depot.PruneArchive` | darwinup/Depot.cpp:907-920 | keeps exactly the archives that have a row, deletes the compressed store, and fails if there is none |
| `DepotProgram.Depot.Uninstall` | darwinup/Depot.cpp:1021-1104 | the program computes the model of uninstalling; other archives stay listed exactly if they have rows left, and after a failure the archive stays, inactive; also with expanded stores left behind; it succeeds exactly for installed roots whose first path can be restored, and deletes recursively exactly when the model says so |
| `DepotProgram.Depot.UninstallArchive` | darwinup/Depot.cpp:1021-1104 | the same for an archive looked up earlier, whose row may be gone by now: its store still goes |
| `DepotProgram.Depot.UninstallUntil` | darwinup/Depot.cpp:1071-1079 | an uninstall that stops between two files leaves the archive inactive and exactly the files before put back |
| `DepotRecovery.ResumeUninstall` | darwinup/Depot.cpp:1071-1104 | run by the program, a stopped uninstall and the one after it end as one uninstall does, up to the rows that stay behind |
| `DepotRecovery.RollBackInstall` | darwinup/Depot.cpp:748-763 | an install stopped after any number of files and then uninstalled gives the old disk exactly if those files are safe, and succeeds exactly if the first path was not among them or its bytes were in store |
| `DepotProgram.Depot.CheckSuperseded` | darwinup/Depot.cpp:1314-1355 | true exactly if no file of the archive is the current one |
| `DepotProgram.Depot.GetSupersededArchives` | darwinup/Depot.cpp:315-344 | all superseded roots and no others, newest first |
| `DepotProgram.Depot.UninstallSuperseded` | darwinup/Depot.cpp:1480-1503 | uninstalls them all, as looked up before the first one goes; the disk does not change, and nothing of them is left |
| `BuildOrder.DependencyGraph` | darwinbuild/buildorder:44-72 | keeps exactly the dependencies that are built too, are not the project itself, not a compiler and not an exception |
| `BuildOrder.OrderedIsAcyclic` | darwinbuild/buildorder:82-123 | an order with dependencies first excludes cycles |
| `BuildOrder.NothingMovedIsStuck` | darwinbuild/buildorder:89-101 | a round in which nothing was built means that projects wait for each other in a cycle |
| `BuildOrder.Sequence` | darwinbuild/buildorder:82-123 | always ends; a permutation of the projects with dependencies first, or an abort, which happens exactly for a cycle or a project named like the sentinel and names the projects left, each of which waits for another; the result is that of rounds over the list |
| `BuildOrder.LeftAreStuck` | darwinbuild/buildorder:89-101 | the projects left by an abort are exactly those in some set of projects each of which waits for one of the set |
| `BuildOrder.OrderStays` | darwinbuild/buildorder:82-123 | a list with dependencies first comes out as it is |
| `BuildOrder.BuildableKeepsOrder` | darwinbuild/buildorder:24-25 | what is to be built stays in the order of the list |
| `BuildOrder.Run` | darwinbuild/buildorder:17-123 | the same for the script as a whole, given the answers to its queries, remaining projects included |
| `BuildSequence.OutputWords` | darwinbuild/buildorder:5-9 | the words of the printed lines are the words of the projects on them, whatever the indentation |
| `BuildSequence.PrintedLinesBack` | darwinxref/plugins/dependencies.c:199-201 | the printed text tells each line's indentation and project |
| `BuildSequence.QueryWords` | darwinbuild/buildorder:46-47 | for each project the script gets the words of the names of its lib and staticlib dependencies, as resolved along the inheritance chain |
| `BuildSequence.MentionsAreDirect` | darwinbuild/buildorder:46-47 | while names hold no blanks, those are the dependencies themselves |
| `BuildSequence.Run` | darwinbuild/buildorder:44-123 | the script with its queries: each project comes after all it waits for, or it aborts, exactly if some projects wait for each other in a circle or one bears the name of the sentinel |
| `Inheritance.EndsExactlyWhenLoopFree` | darwinxref/DBDataStore.c:248-257 | following "inherits" ends exactly if it never returns to a build already seen |
| `Inheritance.CopyBuildInheritance` | darwinxref/DBDataStore.c:248-257 | the chain from the oldest build to the given one |
| `StringArrays.StringArray.AppendDistinct` | darwinxref/cfutils.c:258-267 | appends in place what the array did not hold at the beginning |
| `StringArrays.StringArray.Subtract` | darwinxref/plugins/dependencies.c:153-163 | removes in place the first occurrence of each item |
| `StringArrays.RemoveEachMeans` | darwinxref/plugins/dependencies.c:153-163 | without repeats that is set difference, and no repeats appear |
| `StringArrays.AppendMeans` | darwinxref/cfutils.c:258-267 | without repeats appending is union, and no repeats appear |
| `StringArrays.RemoveEachLeavesOut` | darwinxref/plugins/dependencies.c:153-163 | from a list without repeats removing leaves the other items in their order |
| `StringArrays.NotInKeepsOrder` | darwinxref/cfutils.c:258-267 | what is appended keeps its order and its repeats |
| `Dependencies.ApplyKey` | darwinxref/plugins/dependencies.c:137-170 | one key edits the array of its own type and no other |
| `Dependencies.ApplyBuild` | darwinxref/plugins/dependencies.c:133-170 | the keys of one build, in descending order, give each type its edits in its own order |
| `Dependencies.CopyDependenciesDictionary` | darwinxref/plugins/dependencies.c:124-175 | the arrays in the end, one for each type, edited in place along the chain |
| `Dependencies.EditKeepsOrder` | darwinxref/plugins/dependencies.c:135-170 | handling a key changes the list of its target and no other list |
| `Dependencies.ResolvedMeansFolded` | darwinxref/plugins/dependencies.c:87-122 | for types that sort after "-" the lists are the set fold: replace by base, subtract, add; edits before any base list are ignored |
| `Dependencies.ResolvedInOrder` | darwinxref/plugins/dependencies.c:87-122 | item by item: what is subtracted is left out, what is added comes behind, and all else stays in order |
| `Dependencies.FoldsExactlyAfterDash` | darwinxref/plugins/dependencies.c:135-136 | that order of edits holds exactly for those types |
| `Walks.WalkedIsReached` | darwinxref/plugins/dependencies.c:177-213 | a walk that starts with nothing visited visits exactly what can be reached |
| `Walks.ForestGrows` | darwinxref/plugins/dependencies.c:196-204 | each printed project hangs, by indentation, from one that depends on it |
| `DependencyWalk.Printer.PrintDependencies` | darwinxref/plugins/dependencies.c:177-213 | ends on cyclic graphs; prints each newly visited project once and visits the least closed set; depth first, and no project before those that come earlier in the list it is printed from |
| `Walks.OneAnswer` | darwinxref/plugins/dependencies.c:177-213 | the printed lines, with their order and indentation, are determined by the lists |
| `DependencyWalk.RunCommand` | darwinxref/plugins/dependencies.c:40-69 | each option, by its own types, prints once each direct dependency and what the recursive types reach from there, and nothing else, in the order of the lists and depth first |
| `PlistText.Stream.WritePlist` | darwinxref/cfutils.c:140-211 | the text written for a plist, header and indentation included |
| `PlistText.Stream.PutString` | darwinxref/cfutils.c:155-182 | quotes exactly when needed, escapes quotes and backslashes, stops at a NUL |
| `PlistLayout.QuotedExactly` | darwinxref/cfutils.c:155-182 | a string is printed as it is exactly if it is not empty and made of letters, digits, "/", "." and "_"; any other is quoted and grows by a backslash for each quote and backslash |
| `PlistLayout.WrittenIsLaidOut` | darwinxref/cfutils.c:140-211 | outside quotes each bracket opened, comma and semicolon ends its line, each line has a tab for each bracket open there, and all quotes and brackets are closed in the end |
| `PlistLayout.EntriesAscend` | darwinxref/cfutils.c:196-207 | the entry with the smaller key is printed first |
| `PlistReader.ValueBack` | darwinxref/cfutils.c:183-207 | a printed value is read back whatever follows it, by a reader that skips comments and by one that does not know them |
| `PlistExact.ReadsBackExactly` | darwinxref/cfutils.c:140-211 | a plist is recovered from its printed text exactly if no string in it, key or value, holds a NUL or begins with two slashes and is printed without quotes |
| `PlistExact.CommentIsLost` | darwinxref/cfutils.c:155-182 | a string that is printed as a comment is lost, and nothing is read |
| `PlistExact.WrittenIsCalm` | darwinxref/cfutils.c:175-182 | in printed text a quote without a backslash opens a string that needed quotes, or is followed by punctuation |
| `PlistReader.PrintsApart` | darwinxref/cfutils.c:140-211 | two different plists never print the same |
| `PlistText.NulEndsAString` | darwinxref/cfutils.c:156-161 | of a string with a NUL only the part before it is printed |
| `PropertyLookup.CopyPropWithInheritance` | darwinxref/DBDataStore.c:500-536 | the first hit for the project up to the first build that aliases it, else the first hit for the aliased name among the builds asked, else nothing |
| `PropertyLookup.EndsExactlyWhen` | darwinxref/DBDataStore.c:513-523 | the walk ends exactly if inheritance has no loop or an ancestor has a value or an alias |
| `PropertyLookup.AskedIsPrefix` | darwinxref/DBDataStore.c:513-523 | without loops the builds asked are the beginning of the inheritance chain |
| `PropertyLookup.WalkUp` | darwinxref/DBDataStore.c:513-523 | the first walk stops at a value, an alias or the end of the chain |
| `PropertyLookup.InheritedIsFound` | darwinxref/DBDataStore.c:513-523 | a value some steps up is found if no build on the way has a value or an alias for the project |
| `PropertyLookup.AliasIsFollowed` | darwinxref/DBDataStore.c:524-536 | if the first build that knows the project makes it an alias, the value is that of the other name in the nearest build up to there that has one, and nothing from further up |
| `PropertyLookup.NothingIsFound` | darwinxref/DBDataStore.c:513-536 | if no build of the chain knows the project, nothing is found |
| `PropertyStore.Store.SetProp` | darwinxref/DBDataStore.c:556-582 | unknown properties and wrong types fail and change nothing; else the rows of one property are replaced |
| `PropertyStore.Store.SetPropArray` | darwinxref/DBDataStore.c:636-659 | one row for each item, with its index as key |
| `PropertyStore.Store.SetPropDictionary` | darwinxref/DBDataStore.c:661-707 | the rows of each entry in the order of their keys |
| `PropertyStore.DictCellsAscend` | darwinxref/DBDataStore.c:661-707 | the rows of a dictionary are in the order of its keys |
| `PropertyStore.EntryCellsInOrder` | darwinxref/DBDataStore.c:661-707 | the rows of an array in a dictionary are in the order of its items |
| `PropertyStore.Store.DropUnmentioned` | darwinxref/DBDataStore.c:793-816 | deletes exactly the properties a plist no longer mentions |
| `PropertyStore.Store.SetPlist` | darwinxref/DBDataStore.c:765-865 | writes a plist, the projects inside it and its groups; the outermost call makes exactly one state of the two tables final, also after a failure, and a nested one none |
| `PropertyStore.Store.SetGroupMembers` | darwinxref/DBDataStore.c:896-909 | the members of one group in place of those it had |
| `PropertyGroups.GroupsAreReplaced` | darwinxref/DBDataStore.c:843-860 | a plist with groups replaces all groups of its build, whether its properties could be stored or not |
| `PropertyGroups.OtherGroupsAreKept` | darwinxref/DBDataStore.c:843-860 | all other builds keep their groups, for any nesting of plists |
| `PropertyGroups.GroupReadsBack` | darwinxref/DBDataStore.c:876-894 | a group is read back as it was written exactly if its members are in ascending order without repeats and hold no NUL |
| `PropertyStore.Store.CommitTransaction` | darwinxref/DBDataStore.c:926-933 | only the outermost commit makes the state of the tables final |
| `PropertyValues.ArraysReadBackUpToTen` | darwinxref/DBDataStore.c:428-446 | arrays of a length come back in order, as C strings, exactly if they have one to ten items |
| `PropertyValues.ArrayReads` | darwinxref/DBDataStore.c:428-446 | an array is read back in the order in which its indexes sort as texts, and in no other |
| `PropertyValues.ValueIsKept` | darwinxref/DBDataStore.c:395-473 | whatever its type, a stored value comes back as it was, up to the order of arrays in dictionaries, exactly if it is kept: not empty, without NUL and repeats, and in index order |
| `PropertyValues.ValueReads` | darwinxref/DBDataStore.c:395-473 | the results that reading a stored value can have, exactly, for each type and sub-type |
| `PropertyValues.DictionaryIsKept` | darwinxref/DBDataStore.c:448-473 | a dictionary comes back as it was, up to the order of its arrays, exactly if it is not empty, no text in it holds a NUL, and its entries are strings or, where arrays are declared, arrays that are not empty and have no repeats |
| `PropertyQueries.OwnRowsAreFound` | darwinxref/DBDataStore.c:500-536 | whatever inherits and aliases there are, a property with rows at its own build and project is found there, and as they can be read |
| `PropertyQueries.OwnIsRead` | darwinxref/DBDataStore.c:500-552 | so a lookup in the table can give exactly what these rows can be read as |
| `PropertyLookup.OwnValueIsFound` | darwinxref/DBDataStore.c:513-515 | a lookup finds the value of the build and project asked before any other |
| `PropertyReadback.OwnHolds` | darwinxref/DBDataStore.c:788-828 | after success the rows of the own build or project are as the plist says, and no others |
| `PropertyReadback.OwnHoldsThere` | darwinxref/DBDataStore.c:772-775 | the build and project so written are those the plist itself names, and the caller's only where it names none |
| `PropertyReadback.OthersAreKeptThere` | darwinxref/DBDataStore.c:772-775 | all other builds, and all projects it does not name, are untouched |
| `PropertyReadback.ProjectHoldsThere` | darwinxref/DBDataStore.c:830-840 | each project inside is written under its own name to the build that the plist names |
| `PropertyReadback.NamesDecide` | darwinxref/DBDataStore.c:772-775 | what a plist writes does not depend on the caller's build or project where it names its own |
| `PropertyGroups.GroupsAreThere` | darwinxref/DBDataStore.c:843-860 | groups go to the build that the plist names, or else the caller's, and no other build's are touched |
| `PropertyFailures.SucceedsExactly` | darwinxref/DBDataStore.c:818-841 | writing a plist succeeds exactly if every property in it, and in the projects inside, is declared and of its type; the tables and the place play no part |
| `PropertyFailures.OwnAfterwards` | darwinxref/DBDataStore.c:793-828 | success or failure: properties not mentioned are gone, those up to the first in text order that cannot be stored are as the plist says, and the others have the rows they had |
| `PropertyFailures.InsideAfterwards` | darwinxref/DBDataStore.c:830-841 | of the projects inside, those before the first failure are as the plist says, and those behind it are untouched |
| `PropertyReadback.OthersAreKept` | darwinxref/DBDataStore.c:765-865 | success or not, all other builds and projects are untouched, for any nesting of plists |
| `PropertyReadback.ReadsBack` | darwinxref/DBDataStore.c:710-723 | after success the results of reading back are exactly those in which each property comes back as it does by itself |
| `PropertyReadback.ProjectReadsBack` | darwinxref/DBDataStore.c:830-840 | and so for each project inside |
| `PropertyReadback.KeptIsRecovered` | darwinxref/DBDataStore.c:710-723 | of values that come back as they were, reading gives each one that is not empty, up to the order of arrays in dictionaries |
| `PropertyReadback.NamelessIsReadAsTheBuild` | darwinxref/DBDataStore.c:398-404 | a project with an empty name is stored apart but read from the rows of the build |
| `PropertyReadback.InheritsAsStored` | darwinxref/DBDataStore.c:248-257 | what a build inherits from, as lookups follow it, is what was stored for it, and nothing if nothing was |
| `PropertyReadback.AliasAsStored` | darwinxref/DBDataStore.c:513-523 | and so is the project that another is an alias of |
| `StoredDependencies.StringBecomesArray` | darwinxref/DBDataStore.c:181-200 | a lone string among the dependencies of a project comes back as an array of one |
| `StoredDependencies.StoredHasNoRepeats` | darwinxref/DBDataStore.c:448-473 | the dependency lists read from any table have no repeats |
| `StoredDependencies.StoredMeansFolded` | darwinxref/plugins/dependencies.c:124-175 | whatever order rows are returned in, resolving a type that sorts after "-" folds the rows along the chain |
| `KeptRows.RowsAreKept` | darwinxref/DBDataStore.c:395-473 | reading rows and storing what was read gives the same rows, whatever order they are returned in, exactly if they are those of a value that comes back as it was |
| `BuildRoundTrip.NamesAre` | darwinxref/DBDataStore.c:274-297 | the projects of a build plist are those with rows in the build, and those that a build of its chain says to be another name for one of them |
| `BuildRoundTrip.CanReadBuild` | darwinxref/DBDataStore.c:726-762 | a build whose rows are read as values can be read as a plist |
| `BuildRoundTrip.EditTextReadsBack` | darwinxref/plugins/edit.c:73-120 | the text of a build, under its title, is read back exactly if no string in it looks like a comment or holds a NUL |
| `BuildRoundTrip.EditKeepsTables` | darwinxref/plugins/edit.c:73-120 | whatever plist the build is read as, storing it succeeds and each property keeps its rows and each group its members, exactly if the rows of the build are those of values that come back as they were |
| `BuildRoundTrip.ProjectTextReadsBack` | darwinxref/plugins/edit.c:73-120 | the text of a single project is read back under the same condition |
| `BuildRoundTrip.EditKeepsProject` | darwinxref/plugins/edit.c:73-120 | and storing it keeps all rows and groups exactly if its own rows are such |
| `ProjectDiff.CopyProjectNames` | darwinxref/DBDataStore.c:299-315 | the union of the names along the chain, strictly ascending |
| `StoredProjects.StoredNames` | darwinxref/DBDataStore.c:299-315 | the names along the chain are the projects stored in any of its builds |
| `StoredProjects.DiffStored` | darwinxref/plugins/diff.c:55-134 | run on the table, the diff reports exactly the projects that one build has and the other has not, or that have different versions, each once, with versions that a lookup gives |
| `ProjectDiff.Run` | darwinxref/plugins/diff.c:55-134 | each name once: only in one build, or in both with different versions; names with the same version are passed over |
| `Schema.Database.UpgradeSchema` | darwinup/Database.cpp:696-741 | an upgrade runs as a whole or not at all |
| `Schema.Database.CreateTables` | darwinup/Database.cpp:681-694 | a new file has every table as declared |
| `Schema.ExistingUpgrades` | darwinup/Database.cpp:707-732 | upgrading a file in use never fails and appends the newer columns |
| `Schema.UpgradeIsAsGoodAsNew` | darwinup/Database.cpp:707-732 | upgrades of all versions give the tables of a new file exactly if every table's columns were added in version order |
| `Schema.StagesOrAtOnce` | darwinup/Database.cpp:696-741 | upgrading in two stages ends where upgrading at once does |
| `Schema.InformationTwice` | darwinup/Database.cpp:743-751 | a version-0 file whose other tables are as created is upgraded exactly if it has no information table |
| `Schema.UpgradesExactly` | darwinup/Database.cpp:696-751 | any file is upgraded exactly if tables of later versions are missing and those of earlier versions are there without their newer columns |
| `RowBuffer.StepOnce` | darwinup/Database.cpp:882-898 | packs a row value behind value and touches no other byte |
| `RowBuffer.ValuesAreAtOffsets` | darwinup/Table.cpp:102-131 | every value is at the offset of its column exactly if pointers are as wide as integers or no integer is missing before the last column |
| `RowBuffer.RowIsInside` | darwinup/Table.cpp:133-135 | a packed row is no longer than the row size |
| `RowBuffer.Table.AddColumn` | darwinup/Table.cpp:102-119 | offsets add up the sizes of the columns before |
| `RowBuffer.Table.AllocResult` | darwinup/Table.cpp:137-149 | the pool gains one fresh row |
| `RowBuffer.Table.FreeResult` | darwinup/Table.cpp:151-168 | the pool loses exactly the given row |
| `RowBuffer.Table.GetRow` | darwinup/Database.cpp:387-400 | a row of the pool holds the values, with 8-byte pointers each at its offset |
| `RowBuffer.GetColumn` | darwinup/Database.cpp:900-924 | all values one behind the other and no byte past the buffer, until its size wraps round, which is said exactly |
| `PathCompaction.CompactSlashes` | darwinup/Utils.cpp:217 | moves the rest of the string behind the first slash of a run |
| `PathCompaction.JoinPath` | darwinup/Utils.cpp:224-250 | ends although the cursor moves backwards; each run of slashes in the joined path becomes one |
| `PathCompaction.CleanupPath` | darwintrace/darwintrace.c:267-305 | a resource fork comes out as the file it belongs to does, any other path is not shortened first; each run of slashes becomes one |
| `PathCompaction.SqueezeKeepsNames` | darwinup/Utils.cpp:219-223 | no name between slashes is lost, joined or split |
| `PathCompaction.SqueezeIsTheOnly` | darwintrace/darwintrace.c:282-286 | the result is the only path without double slashes with these names and ends |

## Left out

- Force mode, dry runs, and roots that replace a directory by a file or the other way round (`dirrename`, saving the children of a replaced directory): such roots are refused here, as the program does without force.
- Fetching, extraction, quarantine attributes, locks, cache updates, build-number checks, stripping the prefix from paths: an extracted root is a tree closed under parent directories.
- Errors of system calls and of SQLite, other than a file or store that is not there.
- SQL text, statement caches and indexes: tables are maps, queries are filters.  A row of the files table is known by its archive and path, which are unique; serials of file rows are not modelled.  An upgrade does not create the index of a new index column, and SQLite refuses to add key or unique columns; neither is modelled.
- Memos (`last_archive`, `m_is_superseded`) and the order in which `get_archives` lists rollbacks.
- SHA-1: contents are equal when digests are.
- DepotLayers.DepotIsLayered: runs without edits, of roots that fit, which is exactly when it holds (DepotExact.LayeredExactly); edits are the subject of DepotRepair.InstallThenUninstall, whose condition is exact.
- DepotLayers.SupersededListLeavesDisk: no edits between the uninstalls of the list, since an edit can make an archive current again.
- DepotProgram.Depot.PlaceFiles: a file is placed in one step, also when its directory is created and its attributes are set by several calls.
- DepotRecovery.RollBackInstall: stops of an install between two files are covered; stops inside the commit of its rows are SQLite's; stops before the backups are complete, when nothing is placed yet, are not modelled.
- DepotRecovery.ResumeUninstall: stops of an uninstall between two files are covered, not those between the transactions that delete its rows afterwards.
- Creating backing-store directories: expanded stores appear with the extraction of a root.
- `Table::~Table`, which shrinks the pool while it walks it.
- BuildOrder.Run: the lists that darwinxref prints are inputs here, and computed in BuildSequence.Run; there the list of projects, the groups `nobuild` and `compilertools` and the database are inputs, and the shell passes names on as they are.
- Dependencies.CopyDependenciesDictionary: keys are not empty, since the code looks at their first character; a build's lists are read as one dictionary.
- DependencyWalk.Printer.PrintDependencies: a dependency type never holds a single string, as the table is always read into arrays.
- PlistExact.ReadsBackExactly: CoreFoundation's reader is not part of this model; the reader here follows the format, without strings in single quotes and escapes such as `\n` or octal codes, which the printer never writes.  Characters are not encoded as UTF-8, and the count `writePlist` returns is not modelled.
- PropertyStore.Store.SetPlist: the plist's own names must be strings, arrays must hold strings, and groups must be arrays, as the code takes for granted.  A plist without a build whose caller gives none either (`loadIndex`) leaves rows with a null build, which no query finds again; that is not modelled.
- PropertyReadback.ReadsBack: data properties are not modelled, and properties are declared under names without a NUL; a project with an empty name is read as the build itself (PropertyReadback.NamelessIsReadAsTheBuild).
- PropertyReadback.ProjectReadsBack: the projects inside do not name another build or project, and no two of their names are the same C string.
- BuildRoundTrip.EditKeepsTables: builds with rows of undeclared properties, dictionary rows without keys or a project with an empty name are not covered, nor names that do not fit on the line of the title; a text that is read back as another plist stores that one, of which PropertyReadback.OwnHolds and OthersAreKept say what happens.
- PropertyLookup.CopyPropWithInheritance: not for loops of inheritance in which no build knows the project; there the code does not end (PropertyLookup.EndsExactlyWhen).
- ProjectDiff.Run: every project has a version; the code reads a null string otherwise.  Names of groups are not modelled.
- RowBuffer.GetColumn: values of a column are of its declared type or missing; a statement that fails half way is not modelled.
- Group inheritance (the first query of `DBCopyGroupMembers` always returns an array, so it is never reached), Mach-O parsing, file lists, the Tcl plugins, the shell scripts, and usage texts.
