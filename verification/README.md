# PySync synchronisation core in Dafny

PySync copies every file of a source folder into one or more destination
folders, skipping destination files that are at least as new as their
source. A Qt worker object runs the synchronisation on a background thread.
It reports progress through signals: `progress` lines, one `total_files`
count, one `file_copied` tick per copy, and a final `finished`. The GUI
thread may request cancellation at any moment; the synchronisation routine
polls that flag at fixed points.

This project models that core:

- `paths.dfy` (`Paths`): paths as sequences of components; `a + b` is pathlib's `a / b`.
- `cancellation.dfy` (`Cancellation`): when the GUI's request lands, as a `Schedule`.
  A schedule says before which poll of the flag, counted from 0 within one run, the request lands.
  Every later poll reads the flag as set, because the flag is one-way.
- `storage.dfy` (`Storage`): the filesystem.
  - A map from file paths to modification times, plus a set of directories.
  - `shutil.copy2` and `mkdir(parents=True, exist_ok=True)` as methods of a `FileSystem` class.
  - Faults of `copy2` that depend on the environment (a destination that is the source through a link, permission or disk errors) are an input map.
- `planner.dfy` (`Planner`): the scan as functions.
  - It produces the list of `(source, destination)` copy tasks, file-major and destination-minor.
  - Cancellation can cut it short only at a file boundary.
  - Idempotence: once every planned copy is done, planning again finds nothing.
- `engine.dfy` (`Engine`): the whole of `sync_folders_for_gui` as functions of its inputs.
  - The branch cut off at the gate poll, the dry-run branch, and the copying branch.
  - The copying branch creates parent directories, submits every copy, then reports outcomes in completion order.
  - Its lemmas give the order and the number of the signals, which way the run ends, and what the run leaves on disk.
- `worker.dfy` (`Worker`): the `SyncWorker` class and each loop of `sync_folders_for_gui`, as imperative methods.
  - The class holds the flag and the emitted signals.
  - Each method is proved equal to the functions of `Engine` and `Planner`.

These inputs are parameters, because they come from the environment:

- the listing `os.walk` produces (`walk`);
- the faults `shutil.copy2` meets (`faults`);
- the order in which `as_completed` yields the futures (`order`, a permutation of the plan's positions);
- the moment the GUI requests cancellation (`Schedule`).

## Model

| member | source | states |
|---|---|---|
| Paths.Parent | PySync.py:62 | `dest_path.parent` is the path without its last component, and the whole path is that parent plus the last component |
| Paths.Ancestors | PySync.py:63 | what `mkdir(parents=True)` creates: the path itself, the root, and only prefixes of the path |
| Paths.JoinInjective | PySync.py:29-32 | joining the same relative path onto two roots gives the same path only for the same root |
| Cancellation.Effective | PySync.py:102 | a flag already set when a run starts is seen by every poll of that run; otherwise the schedule is unchanged |
| Storage.Exists | PySync.py:62 | definition: `Path.exists()` holds of regular files and directories alike, and of nothing else |
| Storage.CopyOutcome | PySync.py:65 | copying a path onto itself ends with `SameFileError` whenever that file exists; otherwise a copy succeeds exactly when the environment raises no fault, the source exists and the destination's directory exists; `SameFileError` comes only from those same paths or from the environment resolving the destination to the source |
| Storage.AfterCopy | PySync.py:65 | a successful copy gives the destination the source's modification time; every other path is unchanged |
| Storage.EnsureDir | PySync.py:61-63 | after the guarded `mkdir` the directory exists, no directory is lost, and only ancestors of it are added |
| Storage.FileSystem.constructor | PySync.py:18 | the filesystem starts with the given files and directories |
| Storage.FileSystem.PathExists | PySync.py:62 | definition: the query on the live filesystem answers `Exists` for its current files and directories |
| Storage.FileSystem.MakeDirs | PySync.py:63 | the directory and all its ancestors exist afterwards; existing directories stay |
| Storage.FileSystem.Copy2 | PySync.py:65 | the outcome is `CopyOutcome`; the files afterwards are `AfterCopy`; a success stamps the destination with the source's time |
| Planner.NeedsCopy | PySync.py:33-37 | a destination needs the copy exactly when it is absent or strictly older than the source; equal times are skipped |
| Planner.Rels | PySync.py:26-30 | one relative path per listed file name, in listing order, each the directory joined with the name |
| Planner.PlanFile | PySync.py:31-40 | at most one task per destination, and every task copies this source file |
| Planner.Plan | PySync.py:22-40 | every planned copy reads a source file that exists |
| Planner.ScanFiles | PySync.py:26-40 | the inner scan loop never makes more polls than the directory has files |
| Planner.ScanDirs | PySync.py:23-40 | the outer scan loop makes at most one poll per directory and per file |
| Planner.PlanAppend | PySync.py:23-40 | planning two lists of files one after the other is planning their concatenation |
| Planner.PlanFileMembership | PySync.py:31-40 | a task is planned for a source file exactly when it copies that file into some destination where the copy is missing or older |
| Planner.PlanMembership | PySync.py:23-40 | a task is in the plan exactly when it copies some walked file into some destination where the copy is missing or strictly older |
| Planner.DestinationsIndependent | PySync.py:31-40 | whether a file is copied into one destination depends only on that destination's copy |
| Planner.FileMajorOrder | PySync.py:23-40 | the plan lists the tasks of earlier files before those of later files |
| Planner.DestinationMinorOrder | PySync.py:31-40 | whatever mix of destinations is stale, a file's i-th task copies it into the destination at the i-th stale position; those positions strictly increase along `dest_dirs`, and a position is listed exactly when that destination is stale |
| Planner.ScanFilesQuiet | PySync.py:26-40 | without cancellation the inner loop plans every file of the directory and makes one poll per file |
| Planner.ScanQuiet | PySync.py:23-40 | without cancellation the scan plans every walked file and makes one poll per directory and per file |
| Planner.SourcesInPrefix | PySync.py:23-30 | every file of a prefix of the walk lies in the source tree |
| Planner.ScanFilesStopsAtFile | PySync.py:26-28 | the inner loop's tasks are those of a prefix of the directory's files, and it stops early only on a poll that sees the flag |
| Planner.InnerStopEndsScan | PySync.py:23-28 | once the flag is seen, the outer loop adds nothing more and its last poll sees the flag |
| Planner.ScanStopsAtFileBoundary | PySync.py:23-28 | a cancelled scan's tasks are exactly the plan of a prefix of the walked files: no file is half planned |
| Planner.ScanNextDir | PySync.py:23-28 | the file-boundary property for a walk whose first poll does not see the flag |
| Planner.StopInsideDir | PySync.py:26-28 | a stop inside the first directory is a stop at a file boundary of the whole walk |
| Planner.DirThenRest | PySync.py:23-28 | finishing the first directory and stopping later is a stop at a file boundary of the whole walk |
| Planner.ScanCompleteUnlessCancelled | PySync.py:23-44 | a scan whose last poll does not see the flag planned the whole walk |
| Planner.ApplyAll | PySync.py:65 | carrying out a plan keeps every file and creates every destination |
| Planner.ApplyAllAt | PySync.py:65 | after a plan whose sources and destinations are apart, each destination holds its source's time and every other file is unchanged |
| Planner.PlanSeparate | PySync.py:29-40 | when destinations do not overlap the source tree, no planned destination is a planned source and each destination has one source |
| Planner.PlannedDestOwner | PySync.py:29-32 | without overlap a planned destination `d + r` is written from `source + r` only |
| Planner.ReplanAfterApplyIsEmpty | PySync.py:34-40 | idempotence: after every planned copy is done, planning the same files again finds nothing to copy |
| Engine.Copies | PySync.py:54 | the number of `file_copied` signals never exceeds the number of events |
| Engine.CopiesAppend | PySync.py:54 | counting `file_copied` signals distributes over concatenation |
| Engine.NoCopies | PySync.py:54 | a stretch without `file_copied` signals counts none |
| Engine.DryRun | PySync.py:50-54 | the dry-run loop emits only progress lines and ticks, and makes at most one poll per task |
| Engine.CopyEvents | PySync.py:72-79 | a success gives a line and a tick, a `SameFileError` nothing, any other failure one line |
| Engine.CountResults | PySync.py:67-79 | counting the futures of one kind counts at most all of them |
| Engine.Results | PySync.py:67-79 | the result loop emits only progress lines and ticks, and makes at most one poll per future |
| Engine.WithParents | PySync.py:61-63 | the parent-creation loop never removes a directory |
| Engine.ScanOf | PySync.py:22-40 | the scan of a call makes at most one poll per directory and per file; when no poll sees the flag it plans the whole walk with exactly that many polls |
| Engine.DryRunOutcome | PySync.py:46-56 | a dry run leaves the files and directories as they were; it opens with the scanning line and the plan's total and closes with the concluding line |
| Engine.RealRun | PySync.py:58-84 | a copying run never removes a file or a directory; it opens with the scanning line and the plan's total and closes with either the cancelled or the completed line |
| Engine.Sync | PySync.py:18-84 | one call never removes a file or a directory, a dry run changes nothing on disk, and every call opens with the scanning line |
| Engine.SubmitAll | PySync.py:65 | submitting the plan gives one outcome per task and keeps every file |
| Engine.DryRunQuiet | PySync.py:50-54 | without cancellation the dry run emits two events per task, ticks once per task, and polls once per task |
| Engine.DryRunReportsInOrder | PySync.py:50-54 | without cancellation the dry run announces the tasks in plan order, each followed by its tick |
| Engine.DryRunCopiesBounded | PySync.py:50-54 | however early it is cancelled, the dry run ticks at most once per task |
| Engine.ResultsCopiesBounded | PySync.py:67-79 | however early it is cancelled, the result loop ticks only for successful copies |
| Engine.ResultsAccounting | PySync.py:67-79 | without cancellation the result loop ticks once per success, logs each success and each ordinary error once, and logs nothing for a `SameFileError` |
| Engine.ResultsCompleteUnlessCancelled | PySync.py:67-71 | if the poll after the result loop does not see the flag, no poll inside the loop did |
| Engine.ParentsExist | PySync.py:61-63 | after the pre-copy loop every planned destination's directory exists; existing directories stay; only ancestors of those directories are added |
| Engine.SubmitAllSucceeded | PySync.py:65 | when every copy succeeds, submitting the plan is carrying it out |
| Engine.SubmitAllUntouched | PySync.py:65 | with any mix of outcomes, a path that no successful copy wrote is present afterwards exactly when it was before, with the same time |
| Engine.SubmitAllAt | PySync.py:65 | with any mix of outcomes on a plan where no task reads what another writes and tasks sharing a destination share a source, a destination whose copy succeeded holds its source's time |
| Engine.AllSucceededCount | PySync.py:67-79 | when every future succeeds, every one is counted |
| Engine.Framed | PySync.py:46-58 | an uncancelled run's events are announced by one total right after the scanning line, with no tick before it |
| Engine.DryRunBranchFrame | PySync.py:46-56 | a dry run announces the plan's length once and ticks no more often than that |
| Engine.RealRunBranchFrame | PySync.py:46-84 | a copying run announces the plan's length once and ticks no more often than that |
| Engine.DryRunBranchQuiet | PySync.py:46-56 | without cancellation a dry run ticks once per planned task and leaves the filesystem as it was |
| Engine.RealRunBranchCompletion | PySync.py:58-84 | a copying run reports completion when no poll up to the last sees the flag; when it reports completion, it ticked once per successful copy |
| Engine.QuietScanReachesGate | PySync.py:23-44 | a scan without cancellation reaches the gate poll with the plan of the whole walk, and the gate lets it through |
| Engine.GateStopsRun | PySync.py:42-44 | when the gate poll sees the flag, the run emits only the scanning line and "Scan cancelled.", and touches nothing |
| Engine.TotalPrecedesCopies | PySync.py:42-84 | `total_files` is emitted at most once, right after the scanning line, and only with the length of the whole walk's plan; every `file_copied` comes after it, there are never more of them than the total, and the routine never emits `finished` itself |
| Engine.DryRunCountsWholePlan | PySync.py:42-56 | without cancellation a dry run announces and ticks the whole plan and changes nothing on disk |
| Engine.RealRunCompletesWhenQuiet | PySync.py:81-84 | a copying run that no poll sees cancelled ends with the completion line |
| Engine.CompletionCountsEveryCopy | PySync.py:67-84 | a copying run that ends with the completion line went through every future and ticked once per successful copy |
| Engine.RealRunCountsLikeDryRun | PySync.py:46-84 | without cancellation, and with every copy succeeding, a copying run ticks as often as a dry run of the same folders |
| Engine.RealRunWritesOnlyCopies | PySync.py:58-84 | when the scan is not cancelled and the folders do not overlap, whatever copies fail and even when results collection is cancelled, every path afterwards is as it was or holds the time of the source file it mirrors |
| Engine.RealRunIdempotent | PySync.py:18-84 | when nothing cancels the scan, the folders do not overlap and every copy succeeds, a second scan of the same files plans nothing |
| Worker.SyncWorker.constructor | PySync.py:97-102 | the worker keeps its folders and mode, starts with the flag clear, and has emitted nothing |
| Worker.SyncWorker.RequestCancellation | PySync.py:109-110 | the flag is set afterwards |
| Worker.SyncWorker.IsCancellationRequested | PySync.py:112-113 | definition: the answer is the flag as it stands, and reading it changes nothing |
| Worker.SyncWorker.ObserveCancellation | PySync.py:112-113 | a poll reads the flag as set exactly when the schedule puts the GUI's request before it; the flag never goes back |
| Worker.SyncWorker.Emit | PySync.py:92-95 | a signal is appended to what the worker has emitted |
| Worker.SyncWorker.Run | PySync.py:104-107 | with a source and at least one destination, the worker emits exactly what `Sync` predicts and leaves the disk as `Sync` predicts; otherwise it touches nothing; either way `finished` comes last and only once; a flag already set stays set, and when nothing is synchronised the flag is left as it was |
| Worker.PlanFileTasks | PySync.py:31-40 | the destination loop builds exactly `PlanFile` |
| Worker.ScanDirectory | PySync.py:26-40 | the file loop finds exactly the tasks and makes exactly the polls of `ScanFiles`; a flag already set stays set |
| Worker.ScanSource | PySync.py:22-40 | the walk loop builds exactly the plan and makes exactly the polls of the scan function; a flag already set stays set |
| Worker.DryRunLoop | PySync.py:50-54 | the dry-run loop emits exactly `DryRun`'s events; a flag already set stays set |
| Worker.CreateParentDirs | PySync.py:61-63 | the directories afterwards are exactly `WithParents` of the plan |
| Worker.SubmitCopies | PySync.py:65 | the files and the outcomes afterwards are exactly `SubmitAll`'s |
| Worker.Report | PySync.py:72-79 | one completed future emits exactly `CopyEvents` for its outcome |
| Worker.ResultsLoop | PySync.py:67-79 | the `as_completed` loop emits exactly `Results`' events and makes its polls; a flag already set stays set |
| Worker.DryRunBranch | PySync.py:46-56 | the dry-run branch emits exactly the dry-run outcome's events; a flag already set stays set |
| Worker.RealRunBranch | PySync.py:46-84 | the copying branch emits exactly the copying outcome's events and leaves its files and directories; a flag already set stays set |
| Worker.SyncFolders | PySync.py:18-85 | `sync_folders_for_gui` emits exactly `Sync`'s events and leaves exactly `Sync`'s files and directories; a flag already set stays set |

## Left out

- The Qt window, profiles, settings and every widget are not part of this model.
  Only the worker's signals are modelled, as a sequence of `Event`s.
- Threads: the worker thread and the GUI thread meet only through the cancellation flag.
  That flag is modelled by the `Schedule` of when the request lands.
- Text of progress lines: each line is a `Message` constructor carrying the values the line shows, not the formatted string.
- Modification times are whole numbers; the real ones are floating-point seconds.
- `Path.exists()` on a destination file path that is a directory: the model checks only regular files, and directories have no modification time in it.
- The outer `except Exception` (PySync.py:86-87) is not modelled.
  Examples it would catch: a `stat()` failing, or a regular file standing where `mkdir(parents=True)` needs a directory.
  The model lets `mkdir` succeed in that case.
- Worker.ResultsLoop: on cancellation, `f.cancel()` on the remaining futures is modelled as having no effect.
  Every copy is carried out at submission, in plan order. So the model never shows a copy prevented by cancellation, nor copies running concurrently.
- The thread pool's scheduling is left out; the order in which futures complete is the input `order`.
- `os.walk`'s traversal of the real tree is the input `walk`, assumed to list only regular files of the source tree.
- `shutil.copy2`'s own failures (permissions, disk space, a destination linked to the source) come from the input map `faults`, keyed by destination.
- Storage.AfterCopy: every failed copy leaves the files as they were. A real `copy2` that fails after opening the destination (disk full, an I/O error while writing) can leave a truncated destination with a fresh modification time. `NeedsCopy` would then count that file as up to date on every later run, and the model does not show this.
  The content of files is not modelled, only their modification times.
