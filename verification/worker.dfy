/**
 * The worker object and the synchronisation routine it runs, written as the
 * step-by-step code they are. Each loop is proved against the function of
 * the Engine or Planner module that says what it computes.
 *
 * The GUI thread may ask for cancellation at any moment; a `Schedule` says
 * before which poll of the flag that request lands, and `ObserveCancellation`
 * lets it land at the right moment before reading the flag.
 */
module Worker {
  import opened Paths
  import opened Cancellation
  import opened Storage
  import opened Planner
  import opened Engine

  datatype Option<T> = None | Some(value: T)

  class SyncWorker {
    /** The chosen source folder, if any. */
    const sourceDir: Option<Path>
    const destDirs: seq<Path>
    const dryRun: bool
    /** Set by the GUI thread, read by the sync routine. */
    var cancelRequested: bool
    /** Every signal emitted so far, in order. */
    var events: seq<Event>

    constructor (sourceDir: Option<Path>, destDirs: seq<Path>, dryRun: bool)
      ensures this.sourceDir == sourceDir && this.destDirs == destDirs && this.dryRun == dryRun
      ensures !cancelRequested && events == []
    {
      this.sourceDir := sourceDir;
      this.destDirs := destDirs;
      this.dryRun := dryRun;
      cancelRequested := false;
      events := [];
    }

    /** `run` only starts a synchronisation when a source folder is chosen and there is at least one destination. */
    predicate Runs() {
      sourceDir.Some? && |destDirs| > 0
    }

    /** The flag agrees with the schedule at poll number `poll`: if it is set, the request has landed. */
    ghost predicate FlagBy(s: Schedule, poll: nat)
      reads this`cancelRequested
    {
      cancelRequested ==> Observed(s, poll)
    }

    method RequestCancellation()
      modifies this`cancelRequested
      ensures cancelRequested
    {
      cancelRequested := true;
    }

    function IsCancellationRequested(): (b: bool)
      reads this`cancelRequested
      ensures b <==> cancelRequested
    {
      cancelRequested
    }

    /**
     * One poll of the flag, numbered `poll`: the GUI's request lands first if
     * the schedule puts it before this poll, then the flag is read. The flag
     * never goes back to false.
     */
    method ObserveCancellation(s: Schedule, poll: nat) returns (cancelled: bool)
      requires FlagBy(s, poll)
      modifies this`cancelRequested
      ensures cancelled == cancelRequested == Observed(s, poll)
      ensures old(cancelRequested) ==> cancelRequested
      ensures FlagBy(s, poll + 1)
    {
      if Observed(s, poll) && !cancelRequested {
        RequestCancellation();
      }
      cancelled := IsCancellationRequested();
    }

    method Emit(e: Event)
      modifies this`events
      ensures events == old(events) + [e]
    {
      events := events + [e];
    }

    /**
     * `run`: synchronise when there is something to synchronise, then always
     * signal `finished`, exactly once and last.
     */
    method Run(fs: FileSystem, walk: seq<DirEntry>, faults: map<Path, Fault>, order: seq<nat>, s: Schedule)
      requires Runs() ==> WalkIn(fs.files, sourceDir.value, walk)
      requires Runs() ==>
        CompletionOrder(order, |ScanOf(fs.files, sourceDir.value, destDirs, walk, Effective(cancelRequested, s)).plan|)
      modifies this`cancelRequested, this`events, fs`files, fs`dirs
      ensures Runs() ==>
        var o := Sync(old(fs.files), old(fs.dirs), sourceDir.value, destDirs, dryRun, walk, faults, order,
                      Effective(old(cancelRequested), s));
        events == old(events) + o.events + [Finished] && fs.files == o.files && fs.dirs == o.dirs
      ensures !Runs() ==> events == old(events) + [Finished] && fs.files == old(fs.files) && fs.dirs == old(fs.dirs)
      ensures |events| > |old(events)| && events[|events| - 1] == Finished
      ensures Finished !in events[|old(events)|..|events| - 1]
      ensures old(cancelRequested) ==> cancelRequested
      ensures !Runs() ==> cancelRequested == old(cancelRequested)
    {
      if Runs() {
        var effective := Effective(cancelRequested, s);
        TotalPrecedesCopies(fs.files, fs.dirs, sourceDir.value, destDirs, dryRun, walk, faults, order, effective);
        SyncFolders(this, fs, sourceDir.value, destDirs, dryRun, walk, faults, order, effective);
      }
      Emit(Finished);
    }
  }

  /** The tasks for one source file, destination by destination, as the innermost scan loop builds them. */
  method PlanFileTasks(fs: FileSystem, source: Path, dests: seq<Path>, rel: Path) returns (tasks: seq<Task>)
    requires source + rel in fs.files
    ensures tasks == PlanFile(fs.files, source, dests, rel)
  {
    tasks := [];
    var src := source + rel;
    assert dests[0..] == dests;
    for k := 0 to |dests|
      invariant PlanFile(fs.files, source, dests, rel) == tasks + PlanFile(fs.files, source, dests[k..], rel)
    {
      assert dests[k..][0] == dests[k] && dests[k..][1..] == dests[k + 1..];
      var dest := dests[k] + rel;
      var shouldCopy := true;
      if dest in fs.files {
        if fs.files[src] <= fs.files[dest] {
          shouldCopy := false;
        }
      }
      var found := if shouldCopy then [Task(src, dest)] else [];
      assert PlanFile(fs.files, source, dests[k..], rel) == found + PlanFile(fs.files, source, dests[k + 1..], rel);
      AppendAssociative(tasks, found, PlanFile(fs.files, source, dests[k + 1..], rel));
      tasks := tasks + found;
    }
    assert dests[|dests|..] == [];
  }

  // Unfolding one iteration of each loop's specification, behind a prefix of already emitted output.

  lemma AppendAssociative<T>(a: seq<T>, b: seq<T>, c: seq<T>)
    ensures a + (b + c) == (a + b) + c
  {
  }

  lemma ScanFilesStep(files: Files, source: Path, dests: seq<Path>, dir: Path, names: seq<string>, s: Schedule, poll: nat,
                      prefix: seq<Task>)
    requires SourcesIn(files, source, Rels(dir, names)) && names != [] && !Observed(s, poll)
    ensures source + (dir + [names[0]]) in files
    ensures SourcesIn(files, source, Rels(dir, names[1..]))
    ensures var r := ScanFiles(files, source, dests, dir, names, s, poll);
      var rest := ScanFiles(files, source, dests, dir, names[1..], s, poll + 1);
      prefix + r.plan == (prefix + PlanFile(files, source, dests, dir + [names[0]])) + rest.plan && r.polls == rest.polls
  {
    assert Rels(dir, names)[0] == dir + [names[0]];
    var rest := ScanFiles(files, source, dests, dir, names[1..], s, poll + 1);
    var found := PlanFile(files, source, dests, dir + [names[0]]);
    assert ScanFiles(files, source, dests, dir, names, s, poll) == Scan(found + rest.plan, rest.polls);
    AppendAssociative(prefix, found, rest.plan);
  }

  lemma ScanDirsStep(files: Files, source: Path, dests: seq<Path>, walk: seq<DirEntry>, s: Schedule, poll: nat,
                     prefix: seq<Task>, found: seq<Task>, next: nat)
    requires WalkIn(files, source, walk) && walk != [] && !Observed(s, poll)
    requires SourcesIn(files, source, Rels(walk[0].dir, walk[0].names))
    requires ScanFiles(files, source, dests, walk[0].dir, walk[0].names, s, poll + 1) == Scan(found, next)
    ensures WalkIn(files, source, walk[1..])
    ensures var r := ScanDirs(files, source, dests, walk, s, poll);
      var rest := ScanDirs(files, source, dests, walk[1..], s, next);
      prefix + r.plan == (prefix + found) + rest.plan && r.polls == rest.polls
  {
    PlanAppend(files, source, dests, Rels(walk[0].dir, walk[0].names), RelPaths(walk[1..]));
    var rest := ScanDirs(files, source, dests, walk[1..], s, next);
    assert ScanDirs(files, source, dests, walk, s, poll) == Scan(found + rest.plan, rest.polls);
    AppendAssociative(prefix, found, rest.plan);
  }

  /** The files of the first directory of a walk lie in the source tree. */
  lemma FirstDirIn(files: Files, source: Path, walk: seq<DirEntry>)
    requires WalkIn(files, source, walk) && walk != []
    ensures SourcesIn(files, source, Rels(walk[0].dir, walk[0].names))
  {
    PlanAppend(files, source, [], Rels(walk[0].dir, walk[0].names), RelPaths(walk[1..]));
  }

  lemma DryRunStep(plan: seq<Task>, s: Schedule, poll: nat, prefix: seq<Event>)
    requires plan != [] && !Observed(s, poll)
    ensures var r := DryRun(plan, s, poll);
      var rest := DryRun(plan[1..], s, poll + 1);
      prefix + r.events == (prefix + [Log(WillCopy(plan[0])), FileCopied]) + rest.events && r.polls == rest.polls
  {
    var step := [Log(WillCopy(plan[0])), FileCopied];
    var rest := DryRun(plan[1..], s, poll + 1);
    assert DryRun(plan, s, poll) == Trace(step + rest.events, rest.polls);
    AppendAssociative(prefix, step, rest.events);
  }

  lemma ValidOrderSuffix(order: seq<nat>, n: nat, i: nat)
    requires ValidOrder(order, n) && i <= |order|
    ensures ValidOrder(order[i..], n)
  {
    forall k | 0 <= k < |order[i..]| ensures order[i..][k] < n {
      assert order[i..][k] == order[i + k];
    }
  }

  lemma ResultsStep(plan: seq<Task>, results: seq<CopyResult>, order: seq<nat>, s: Schedule, poll: nat, prefix: seq<Event>)
    requires |results| == |plan| && order != [] && !Observed(s, poll)
    requires ValidOrder(order, |plan|) && ValidOrder(order[1..], |plan|)
    ensures var r := Results(plan, results, order, s, poll);
      var rest := Results(plan, results, order[1..], s, poll + 1);
      prefix + r.events == (prefix + CopyEvents(plan[order[0]].src, results[order[0]])) + rest.events
      && r.polls == rest.polls
  {
    var step := CopyEvents(plan[order[0]].src, results[order[0]]);
    var rest := Results(plan, results, order[1..], s, poll + 1);
    assert Results(plan, results, order, s, poll) == Trace(step + rest.events, rest.polls);
    AppendAssociative(prefix, step, rest.events);
  }

  /** The scan of one directory's files, polling once per file; the tasks it finds. */
  method ScanDirectory(worker: SyncWorker, fs: FileSystem, source: Path, dests: seq<Path>, dir: Path, names: seq<string>,
                       s: Schedule, poll0: nat) returns (found: seq<Task>, poll: nat)
    requires SourcesIn(fs.files, source, Rels(dir, names))
    requires worker.FlagBy(s, poll0)
    modifies worker`cancelRequested
    ensures ScanFiles(fs.files, source, dests, dir, names, s, poll0) == Scan(found, poll)
    ensures worker.FlagBy(s, poll)
    ensures old(worker.cancelRequested) ==> worker.cancelRequested
  {
    found, poll := [], poll0;
    ghost var whole := ScanFiles(fs.files, source, dests, dir, names, s, poll0);
    var ni := 0;
    while ni < |names|
      invariant ni <= |names|
      invariant SourcesIn(fs.files, source, Rels(dir, names[ni..]))
      invariant worker.FlagBy(s, poll)
      invariant old(worker.cancelRequested) ==> worker.cancelRequested
      invariant var r := ScanFiles(fs.files, source, dests, dir, names[ni..], s, poll);
        whole == Scan(found + r.plan, r.polls)
    {
      assert names[ni..][0] == names[ni] && names[ni..][1..] == names[ni + 1..];
      var cancelled := worker.ObserveCancellation(s, poll);
      if cancelled {
        assert found + [] == found;
        poll := poll + 1;
        return;
      }
      ScanFilesStep(fs.files, source, dests, dir, names[ni..], s, poll, found);
      var tasks := PlanFileTasks(fs, source, dests, dir + [names[ni]]);
      found := found + tasks;
      poll := poll + 1;
      ni := ni + 1;
    }
    assert names[ni..] == [] && found + [] == found;
  }

  /** The whole scan: directory by directory, polling before each directory. */
  method ScanSource(worker: SyncWorker, fs: FileSystem, source: Path, dests: seq<Path>, walk: seq<DirEntry>, s: Schedule)
    returns (plan: seq<Task>, poll: nat)
    requires WalkIn(fs.files, source, walk)
    requires worker.FlagBy(s, 0)
    modifies worker`cancelRequested
    ensures ScanDirs(fs.files, source, dests, walk, s, 0) == Scan(plan, poll)
    ensures worker.FlagBy(s, poll)
    ensures old(worker.cancelRequested) ==> worker.cancelRequested
  {
    plan, poll := [], 0;
    ghost var whole := ScanDirs(fs.files, source, dests, walk, s, 0);
    var pending := walk;
    while pending != []
      invariant WalkIn(fs.files, source, pending)
      invariant worker.FlagBy(s, poll)
      invariant old(worker.cancelRequested) ==> worker.cancelRequested
      invariant var r := ScanDirs(fs.files, source, dests, pending, s, poll);
        whole == Scan(plan + r.plan, r.polls)
      decreases |pending|
    {
      var cancelled := worker.ObserveCancellation(s, poll);
      if cancelled {
        assert plan + [] == plan;
        poll := poll + 1;
        return;
      }
      FirstDirIn(fs.files, source, pending);
      var found, next := ScanDirectory(worker, fs, source, dests, pending[0].dir, pending[0].names, s, poll + 1);
      ScanDirsStep(fs.files, source, dests, pending, s, poll, plan, found, next);
      plan, poll := plan + found, next;
      pending := pending[1..];
    }
    assert plan + [] == plan;
  }

  /** The dry-run loop: for each planned task, poll, then report it and count it. */
  method DryRunLoop(worker: SyncWorker, plan: seq<Task>, s: Schedule, poll0: nat) returns (poll: nat)
    requires worker.FlagBy(s, poll0)
    modifies worker`cancelRequested, worker`events
    ensures var d := DryRun(plan, s, poll0);
      worker.events == old(worker.events) + d.events && poll == d.polls
    ensures worker.FlagBy(s, poll)
    ensures old(worker.cancelRequested) ==> worker.cancelRequested
  {
    poll := poll0;
    var i := 0;
    while i < |plan|
      invariant i <= |plan|
      invariant worker.FlagBy(s, poll)
      invariant old(worker.cancelRequested) ==> worker.cancelRequested
      invariant var r := DryRun(plan[i..], s, poll);
        var d := DryRun(plan, s, poll0);
        worker.events + r.events == old(worker.events) + d.events && r.polls == d.polls
    {
      assert plan[i..][0] == plan[i] && plan[i..][1..] == plan[i + 1..];
      var cancelled := worker.ObserveCancellation(s, poll);
      if cancelled {
        assert worker.events + [] == worker.events;
        poll := poll + 1;
        return;
      }
      ghost var pre := worker.events;
      DryRunStep(plan[i..], s, poll, pre);
      worker.Emit(Log(WillCopy(plan[i])));
      worker.Emit(FileCopied);
      assert worker.events == pre + [Log(WillCopy(plan[i])), FileCopied];
      poll := poll + 1;
      i := i + 1;
    }
    assert plan[i..] == [] && worker.events + [] == worker.events;
  }

  /** The loop before submission: each task's destination directory is created unless something exists there. */
  method CreateParentDirs(fs: FileSystem, plan: seq<Task>)
    modifies fs`dirs
    ensures fs.dirs == WithParents(fs.files, old(fs.dirs), plan)
  {
    assert plan[0..] == plan;
    for i := 0 to |plan|
      invariant WithParents(fs.files, old(fs.dirs), plan) == WithParents(fs.files, fs.dirs, plan[i..])
    {
      assert plan[i..][0] == plan[i] && plan[i..][1..] == plan[i + 1..];
      var parent := Parent(plan[i].dest);
      if !fs.PathExists(parent) {
        fs.MakeDirs(parent);
      }
    }
    assert plan[|plan|..] == [];
  }

  /** Submitting every task to the pool, in plan order; each copy's outcome, by plan position. */
  method SubmitCopies(fs: FileSystem, plan: seq<Task>, faults: map<Path, Fault>) returns (results: seq<CopyResult>)
    modifies fs`files
    ensures var sub := SubmitAll(old(fs.files), fs.dirs, plan, faults);
      fs.files == sub.files && results == sub.results
  {
    results := [];
    assert plan[0..] == plan;
    for i := 0 to |plan|
      invariant var sub := SubmitAll(fs.files, fs.dirs, plan[i..], faults);
        SubmitAll(old(fs.files), fs.dirs, plan, faults) == Submitted(sub.files, results + sub.results)
    {
      assert plan[i..][0] == plan[i] && plan[i..][1..] == plan[i + 1..];
      ghost var files := fs.files;
      var r := fs.Copy2(plan[i].src, plan[i].dest, faults);
      ghost var sub := SubmitAll(fs.files, fs.dirs, plan[i + 1..], faults);
      assert SubmitAll(files, fs.dirs, plan[i..], faults) == Submitted(sub.files, [r] + sub.results);
      AppendAssociative(results, [r], sub.results);
      results := results + [r];
    }
    assert plan[|plan|..] == [];
    assert results + [] == results;
  }

  /** What one completed future reports: a success is logged and counted, a same-file error is silent, any other failure is logged. */
  method Report(worker: SyncWorker, src: Path, r: CopyResult)
    modifies worker`events
    ensures worker.events == old(worker.events) + CopyEvents(src, r)
  {
    match r {
      case Succeeded =>
        worker.Emit(Log(Copied(src)));
        worker.Emit(FileCopied);
      case SameFileError =>
        assert worker.events == old(worker.events) + [];
      case Failed =>
        worker.Emit(Log(CopyError(src)));
    }
  }

  /** The as_completed loop: for each completed future, poll, then report its outcome. */
  method ResultsLoop(worker: SyncWorker, plan: seq<Task>, results: seq<CopyResult>, order: seq<nat>, s: Schedule, poll0: nat)
    returns (poll: nat)
    requires |results| == |plan| && ValidOrder(order, |plan|)
    requires worker.FlagBy(s, poll0)
    modifies worker`cancelRequested, worker`events
    ensures var r := Results(plan, results, order, s, poll0);
      worker.events == old(worker.events) + r.events && poll == r.polls
    ensures worker.FlagBy(s, poll)
    ensures old(worker.cancelRequested) ==> worker.cancelRequested
  {
    poll := poll0;
    var i := 0;
    while i < |order|
      invariant i <= |order|
      invariant ValidOrder(order[i..], |plan|)
      invariant worker.FlagBy(s, poll)
      invariant old(worker.cancelRequested) ==> worker.cancelRequested
      invariant var r := Results(plan, results, order[i..], s, poll);
        var d := Results(plan, results, order, s, poll0);
        worker.events + r.events == old(worker.events) + d.events && r.polls == d.polls
    {
      var cancelled := worker.ObserveCancellation(s, poll);
      if cancelled {
        assert worker.events + [] == worker.events;
        poll := poll + 1;
        return;
      }
      ghost var pre := worker.events;
      assert order[i..][0] == order[i] && order[i..][1..] == order[i + 1..];
      ValidOrderSuffix(order, |plan|, i + 1);
      ResultsStep(plan, results, order[i..], s, poll, pre);
      Report(worker, plan[order[i]].src, results[order[i]]);
      poll := poll + 1;
      i := i + 1;
    }
    assert order[i..] == [] && worker.events + [] == worker.events;
  }

  /** Emitting three events, a loop's events and a closing event one after the other appends the whole frame. */
  lemma Regroup<T>(before: seq<T>, x: T, y: T, z: T, middle: seq<T>, w: T)
    ensures before + [x] + [y] + [z] + middle + [w] == before + ([x, y, z] + middle + [w])
  {
    calc {
      before + [x] + [y] + [z] + middle + [w];
      { assert before + [x] + [y] + [z] == before + [x, y, z]; }
      before + [x, y, z] + middle + [w];
      { assert before + [x, y, z] + middle == before + ([x, y, z] + middle); }
      before + ([x, y, z] + middle) + [w];
    }
  }

  /** The dry-run branch, after the gate poll: announce the total, report every task, conclude. */
  method DryRunBranch(worker: SyncWorker, fs: FileSystem, plan: seq<Task>, s: Schedule, gate: nat, ghost before: seq<Event>)
    requires worker.events == before + [Log(Scanning)]
    requires worker.FlagBy(s, gate + 1)
    modifies worker`cancelRequested, worker`events
    ensures worker.events == before + DryRunOutcome(fs.files, fs.dirs, plan, s, gate).events
    ensures old(worker.cancelRequested) ==> worker.cancelRequested
  {
    worker.Emit(Total(|plan|));
    worker.Emit(Log(DryRunStarted));
    var end := DryRunLoop(worker, plan, s, gate + 1);
    worker.Emit(Log(DryRunConcluded));
    Regroup(before, Log(Scanning), Total(|plan|), Log(DryRunStarted), DryRun(plan, s, gate + 1).events, Log(DryRunConcluded));
  }

  /** The copying branch, after the gate poll: create the parent directories, submit every copy, report the outcomes, poll once more. */
  method RealRunBranch(worker: SyncWorker, fs: FileSystem, plan: seq<Task>, faults: map<Path, Fault>, order: seq<nat>,
                       s: Schedule, gate: nat, ghost before: seq<Event>)
    requires worker.events == before + [Log(Scanning)]
    requires CompletionOrder(order, |plan|)
    requires worker.FlagBy(s, gate + 1)
    modifies worker`cancelRequested, worker`events, fs`files, fs`dirs
    ensures var o := RealRun(old(fs.files), old(fs.dirs), plan, faults, order, s, gate);
      worker.events == before + o.events && fs.files == o.files && fs.dirs == o.dirs
    ensures old(worker.cancelRequested) ==> worker.cancelRequested
  {
    worker.Emit(Total(|plan|));
    worker.Emit(Log(Found(|plan|)));
    CreateParentDirs(fs, plan);
    var results := SubmitCopies(fs, plan, faults);
    var end := ResultsLoop(worker, plan, results, order, s, gate + 1);
    var cancelled := worker.ObserveCancellation(s, end);
    var last := if cancelled then SyncCancelled else SyncCompleted;
    worker.Emit(Log(last));
    Regroup(before, Log(Scanning), Total(|plan|), Log(Found(|plan|)), Results(plan, results, order, s, gate + 1).events, Log(last));
  }

  /** `sync_folders_for_gui`: scan, then either report the plan or carry it out, polling for cancellation throughout. */
  method SyncFolders(worker: SyncWorker, fs: FileSystem, source: Path, dests: seq<Path>, dryRun: bool,
                     walk: seq<DirEntry>, faults: map<Path, Fault>, order: seq<nat>, s: Schedule)
    requires WalkIn(fs.files, source, walk)
    requires CompletionOrder(order, |ScanOf(fs.files, source, dests, walk, s).plan|)
    requires worker.FlagBy(s, 0)
    modifies worker`cancelRequested, worker`events, fs`files, fs`dirs
    ensures var o := Sync(old(fs.files), old(fs.dirs), source, dests, dryRun, walk, faults, order, s);
      worker.events == old(worker.events) + o.events && fs.files == o.files && fs.dirs == o.dirs
    ensures old(worker.cancelRequested) ==> worker.cancelRequested
  {
    worker.Emit(Log(Scanning));
    var plan, poll := ScanSource(worker, fs, source, dests, walk, s);
    var cancelled := worker.ObserveCancellation(s, poll);
    if cancelled {
      worker.Emit(Log(ScanCancelled));
      assert worker.events == old(worker.events) + [Log(Scanning), Log(ScanCancelled)];
    } else if dryRun {
      DryRunBranch(worker, fs, plan, s, poll, old(worker.events));
    } else {
      RealRunBranch(worker, fs, plan, faults, order, s, poll, old(worker.events));
    }
  }
}
