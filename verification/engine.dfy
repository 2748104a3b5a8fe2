/**
 * What one call of `sync_folders_for_gui` emits and does to the filesystem,
 * stated as functions of its inputs: the filesystem, the walk, the
 * environment's copy faults, the order in which copies complete, and the
 * cancellation schedule.
 */
module Engine {
  import opened Paths
  import opened Cancellation
  import opened Storage
  import opened Planner

  /** The progress lines, as tags with the data they mention. */
  datatype Message =
    | Scanning
    | ScanCancelled
    | DryRunStarted
    | WillCopy(task: Task)
    | DryRunConcluded
    | Found(count: nat)
    | Copied(src: Path)
    | CopyError(src: Path)
    | SyncCancelled
    | SyncCompleted

  /** The worker's signals: progress, total_files, file_copied and finished. */
  datatype Event = Log(msg: Message) | Total(count: nat) | FileCopied | Finished

  /** Events emitted by a loop, and the number of polls made up to its end. */
  datatype Trace = Trace(events: seq<Event>, polls: nat)

  /** Only progress lines and copy counts: what the per-task loops emit. */
  predicate Progress(events: seq<Event>) {
    forall k :: 0 <= k < |events| ==> events[k].Log? || events[k].FileCopied?
  }

  /** How many `file_copied` signals a sequence of events holds. */
  function Copies(events: seq<Event>): (c: nat)
    ensures c <= |events|
  {
    if events == [] then 0 else (if events[0] == FileCopied then 1 else 0) + Copies(events[1..])
  }

  /** Counting copies distributes over concatenation. */
  lemma {:induction false} CopiesAppend(a: seq<Event>, b: seq<Event>)
    ensures Copies(a + b) == Copies(a) + Copies(b)
  {
    if a == [] {
      assert a + b == b;
    } else {
      assert (a + b)[0] == a[0] && (a + b)[1..] == a[1..] + b;
      CopiesAppend(a[1..], b);
    }
  }

  /** The dry-run loop: poll, then report the task and count it. */
  function DryRun(plan: seq<Task>, s: Schedule, poll: nat): (r: Trace)
    ensures Progress(r.events)
    ensures poll <= r.polls <= poll + |plan|
  {
    if plan == [] then Trace([], poll)
    else if Observed(s, poll) then Trace([], poll + 1)
    else
      var rest := DryRun(plan[1..], s, poll + 1);
      Trace([Log(WillCopy(plan[0])), FileCopied] + rest.events, rest.polls)
  }

  /** The events for one completed copy: success is logged and counted, SameFileError is dropped, other errors are logged. */
  function CopyEvents(src: Path, r: CopyResult): (e: seq<Event>)
    ensures Progress(e)
    ensures Copies(e) == (if r == Succeeded then 1 else 0)
    ensures |e| == (if r == Succeeded then 2 else if r == Failed then 1 else 0)
  {
    match r
    case Succeeded => [Log(Copied(src)), FileCopied]
    case SameFileError => []
    case Failed => [Log(CopyError(src))]
  }

  /** `order` lists positions in a plan of `n` tasks: the futures in the order they complete. */
  predicate ValidOrder(order: seq<nat>, n: nat) {
    forall k :: 0 <= k < |order| ==> order[k] < n
  }

  /** as_completed yields every future exactly once. */
  predicate CompletionOrder(order: seq<nat>, n: nat) {
    && ValidOrder(order, n)
    && |order| == n
    && (forall j, k :: 0 <= j < k < |order| ==> order[j] != order[k])
  }

  /** How many of the futures in `order` ended with `kind`. */
  function CountResults(results: seq<CopyResult>, order: seq<nat>, kind: CopyResult): (c: nat)
    requires forall k :: 0 <= k < |order| ==> order[k] < |results|
    ensures c <= |order|
  {
    if order == [] then 0
    else (if results[order[0]] == kind then 1 else 0) + CountResults(results, order[1..], kind)
  }

  /** The result loop: for each completed future, poll, then report its outcome. */
  function Results(plan: seq<Task>, results: seq<CopyResult>, order: seq<nat>, s: Schedule, poll: nat): (r: Trace)
    requires |results| == |plan| && ValidOrder(order, |plan|)
    ensures Progress(r.events)
    ensures poll <= r.polls <= poll + |order|
  {
    if order == [] then Trace([], poll)
    else if Observed(s, poll) then Trace([], poll + 1)
    else
      var rest := Results(plan, results, order[1..], s, poll + 1);
      Trace(CopyEvents(plan[order[0]].src, results[order[0]]) + rest.events, rest.polls)
  }

  /** The directories after the pre-copy loop: each task's parent is created unless it exists. */
  function WithParents(files: Files, dirs: set<Path>, plan: seq<Task>): (r: set<Path>)
    ensures dirs <= r
    decreases |plan|
  {
    if plan == [] then dirs
    else WithParents(files, EnsureDir(files, dirs, Parent(plan[0].dest)), plan[1..])
  }

  /** The files after every task is handed to copy2, and each task's outcome, by plan position. */
  datatype Submitted = Submitted(files: Files, results: seq<CopyResult>)

  function SubmitAll(files: Files, dirs: set<Path>, plan: seq<Task>, faults: map<Path, Fault>): (r: Submitted)
    ensures |r.results| == |plan|
    ensures files.Keys <= r.files.Keys
    decreases |plan|
  {
    if plan == [] then Submitted(files, [])
    else
      var res := CopyOutcome(files, dirs, plan[0].src, plan[0].dest, faults);
      var rest := SubmitAll(AfterCopy(files, plan[0].src, plan[0].dest, res), dirs, plan[1..], faults);
      Submitted(rest.files, [res] + rest.results)
  }

  /** Everything one run emits, and the filesystem it leaves. */
  datatype Outcome = Outcome(events: seq<Event>, files: Files, dirs: set<Path>)

  /** The scan of a whole call, from the first poll on. */
  function ScanOf(files: Files, source: Path, dests: seq<Path>, walk: seq<DirEntry>, s: Schedule): (r: Scan)
    requires WalkIn(files, source, walk)
    ensures r.polls <= ScanPolls(walk)
    ensures QuietBefore(s, ScanPolls(walk)) ==> r == Scan(Plan(files, source, dests, RelPaths(walk)), ScanPolls(walk))
  {
    if QuietBefore(s, ScanPolls(walk)) then
      ScanQuiet(files, source, dests, walk, s, 0);
      ScanDirs(files, source, dests, walk, s, 0)
    else
      ScanDirs(files, source, dests, walk, s, 0)
  }

  /** The dry-run branch, entered after the poll numbered `gate`. */
  function DryRunOutcome(files: Files, dirs: set<Path>, plan: seq<Task>, s: Schedule, gate: nat): (r: Outcome)
    ensures r.files == files && r.dirs == dirs
    ensures |r.events| >= 4 && r.events[..2] == [Log(Scanning), Total(|plan|)]
    ensures r.events[|r.events| - 1] == Log(DryRunConcluded)
  {
    var d := DryRun(plan, s, gate + 1);
    Outcome([Log(Scanning), Total(|plan|), Log(DryRunStarted)] + d.events + [Log(DryRunConcluded)], files, dirs)
  }

  /** The copying branch, entered after the poll numbered `gate`. */
  function RealRun(files: Files, dirs: set<Path>, plan: seq<Task>, faults: map<Path, Fault>, order: seq<nat>,
                   s: Schedule, gate: nat): (r: Outcome)
    requires CompletionOrder(order, |plan|)
    ensures dirs <= r.dirs && files.Keys <= r.files.Keys
    ensures |r.events| >= 4 && r.events[..2] == [Log(Scanning), Total(|plan|)]
    ensures r.events[|r.events| - 1] in {Log(SyncCancelled), Log(SyncCompleted)}
  {
    var made := WithParents(files, dirs, plan);
    var sub := SubmitAll(files, made, plan, faults);
    var res := Results(plan, sub.results, order, s, gate + 1);
    var last := if Observed(s, res.polls) then SyncCancelled else SyncCompleted;
    Outcome([Log(Scanning), Total(|plan|), Log(Found(|plan|))] + res.events + [Log(last)], sub.files, made)
  }

  /** One call of `sync_folders_for_gui`. */
  function Sync(files: Files, dirs: set<Path>, source: Path, dests: seq<Path>, dryRun: bool, walk: seq<DirEntry>,
                faults: map<Path, Fault>, order: seq<nat>, s: Schedule): (r: Outcome)
    requires WalkIn(files, source, walk)
    requires CompletionOrder(order, |ScanOf(files, source, dests, walk, s).plan|)
    ensures dirs <= r.dirs && files.Keys <= r.files.Keys
    ensures dryRun ==> r.files == files && r.dirs == dirs
    ensures |r.events| >= 2 && r.events[0] == Log(Scanning)
  {
    var scan := ScanOf(files, source, dests, walk, s);
    if Observed(s, scan.polls) then Outcome([Log(Scanning), Log(ScanCancelled)], files, dirs)
    else if dryRun then DryRunOutcome(files, dirs, scan.plan, s, scan.polls)
    else RealRun(files, dirs, scan.plan, faults, order, s, scan.polls)
  }

  // ---------------------------------------------------------------------------
  // The loops on their own

  /** Without cancellation the dry run makes one poll per task and counts every task. */
  lemma {:induction false} DryRunQuiet(plan: seq<Task>, s: Schedule, poll: nat)
    requires QuietBefore(s, poll + |plan|)
    ensures var r := DryRun(plan, s, poll);
      && |r.events| == 2 * |plan|
      && Copies(r.events) == |plan|
      && r.polls == poll + |plan|
  {
    if plan != [] {
      assert !Observed(s, poll);
      DryRunQuiet(plan[1..], s, poll + 1);
      CopiesAppend([Log(WillCopy(plan[0])), FileCopied], DryRun(plan[1..], s, poll + 1).events);
    }
  }

  /** Without cancellation the dry run reports the tasks in plan order, each followed by its count. */
  lemma {:induction false} DryRunReportsInOrder(plan: seq<Task>, s: Schedule, poll: nat, i: nat)
    requires QuietBefore(s, poll + |plan|) && i < |plan|
    ensures var r := DryRun(plan, s, poll);
      && 2 * i + 1 < |r.events|
      && r.events[2 * i] == Log(WillCopy(plan[i]))
      && r.events[2 * i + 1] == FileCopied
  {
    DryRunQuiet(plan, s, poll);
    assert !Observed(s, poll);
    var head := [Log(WillCopy(plan[0])), FileCopied];
    var rest := DryRun(plan[1..], s, poll + 1).events;
    assert DryRun(plan, s, poll).events == head + rest;
    if i > 0 {
      DryRunReportsInOrder(plan[1..], s, poll + 1, i - 1);
      assert plan[1..][i - 1] == plan[i];
      var j := 2 * (i - 1);
      IndexPastPrefix(head, rest, j + 2);
      IndexPastPrefix(head, rest, j + 3);
    }
  }

  /** The dry run counts at most one copy per task, however early it is cancelled. */
  lemma {:induction false} DryRunCopiesBounded(plan: seq<Task>, s: Schedule, poll: nat)
    ensures Copies(DryRun(plan, s, poll).events) <= |plan|
  {
    if plan != [] && !Observed(s, poll) {
      DryRunCopiesBounded(plan[1..], s, poll + 1);
      CopiesAppend([Log(WillCopy(plan[0])), FileCopied], DryRun(plan[1..], s, poll + 1).events);
    }
  }

  /** The result loop counts only successful copies, however early it is cancelled. */
  lemma {:induction false} ResultsCopiesBounded(plan: seq<Task>, results: seq<CopyResult>, order: seq<nat>, s: Schedule, poll: nat)
    requires |results| == |plan| && ValidOrder(order, |plan|)
    ensures Copies(Results(plan, results, order, s, poll).events) <= CountResults(results, order, Succeeded)
  {
    if order != [] && !Observed(s, poll) {
      ResultsCopiesBounded(plan, results, order[1..], s, poll + 1);
      CopiesAppend(CopyEvents(plan[order[0]].src, results[order[0]]), Results(plan, results, order[1..], s, poll + 1).events);
    }
  }

  /**
   * Without cancellation the result loop counts exactly the successful
   * copies, logs each success and each ordinary error once, and says nothing
   * about a SameFileError.
   */
  lemma {:induction false} ResultsAccounting(plan: seq<Task>, results: seq<CopyResult>, order: seq<nat>, s: Schedule, poll: nat)
    requires |results| == |plan| && ValidOrder(order, |plan|)
    requires QuietBefore(s, poll + |order|)
    ensures var r := Results(plan, results, order, s, poll);
      && Copies(r.events) == CountResults(results, order, Succeeded)
      && |r.events| == 2 * CountResults(results, order, Succeeded) + CountResults(results, order, Failed)
      && r.polls == poll + |order|
  {
    if order != [] {
      assert !Observed(s, poll);
      ResultsAccounting(plan, results, order[1..], s, poll + 1);
      CopiesAppend(CopyEvents(plan[order[0]].src, results[order[0]]), Results(plan, results, order[1..], s, poll + 1).events);
    }
  }

  /**
   * The result loop ends early only on a poll that sees the flag: if the
   * flag is not seen at its last poll, it went through every completed future.
   */
  lemma {:induction false} ResultsCompleteUnlessCancelled(plan: seq<Task>, results: seq<CopyResult>, order: seq<nat>, s: Schedule, poll: nat)
    requires |results| == |plan| && ValidOrder(order, |plan|)
    requires !Observed(s, Results(plan, results, order, s, poll).polls)
    ensures QuietBefore(s, poll + |order|)
  {
    if order != [] {
      assert !Observed(s, poll);
      ResultsCompleteUnlessCancelled(plan, results, order[1..], s, poll + 1);
    }
  }

  /** After the pre-copy loop every planned destination's directory exists; existing directories stay, and only ancestors of those directories are added. */
  lemma {:induction false} ParentsExist(files: Files, dirs: set<Path>, plan: seq<Task>)
    ensures var made := WithParents(files, dirs, plan);
      && dirs <= made
      && (forall t :: t in plan ==> Exists(files, made, Parent(t.dest)))
      && (forall p :: p in made && p !in dirs ==> exists t :: t in plan && p in Ancestors(Parent(t.dest)))
    decreases |plan|
  {
    if plan != [] {
      var next := EnsureDir(files, dirs, Parent(plan[0].dest));
      ParentsExist(files, next, plan[1..]);
      var made := WithParents(files, dirs, plan);
      assert made == WithParents(files, next, plan[1..]);
      forall p | p in made && p !in dirs ensures exists t :: t in plan && p in Ancestors(Parent(t.dest)) {
        if p in next {
          assert plan[0] in plan;
        } else {
          var t :| t in plan[1..] && p in Ancestors(Parent(t.dest));
          assert t in plan;
        }
      }
      forall t | t in plan ensures Exists(files, made, Parent(t.dest)) {
        if t != plan[0] {
          assert t in plan[1..];
        }
      }
    }
  }

  /** When every copy succeeds, submitting the plan is applying it as metadata-preserving copies. */
  lemma {:induction false} SubmitAllSucceeded(files: Files, dirs: set<Path>, plan: seq<Task>, faults: map<Path, Fault>)
    requires forall t :: t in plan ==> t.src in files
    requires forall i :: 0 <= i < |plan| ==> SubmitAll(files, dirs, plan, faults).results[i] == Succeeded
    ensures SubmitAll(files, dirs, plan, faults).files == ApplyAll(files, plan)
    decreases |plan|
  {
    if plan != [] {
      var sub := SubmitAll(files, dirs, plan, faults);
      var res := CopyOutcome(files, dirs, plan[0].src, plan[0].dest, faults);
      assert sub.results[0] == res;
      var next := AfterCopy(files, plan[0].src, plan[0].dest, res);
      assert next == files[plan[0].dest := files[plan[0].src]];
      var rest := SubmitAll(next, dirs, plan[1..], faults);
      forall i | 0 <= i < |plan[1..]| ensures rest.results[i] == Succeeded {
        assert sub.results[i + 1] == rest.results[i];
      }
      forall t | t in plan[1..] ensures t.src in next {
        assert t in plan;
      }
      SubmitAllSucceeded(next, dirs, plan[1..], faults);
    }
  }

  /** With any mix of outcomes, a path that no successful copy wrote is exactly as it was. */
  lemma {:induction false} SubmitAllUntouched(files: Files, dirs: set<Path>, plan: seq<Task>, faults: map<Path, Fault>, p: Path)
    requires forall i :: 0 <= i < |plan| && plan[i].dest == p ==> SubmitAll(files, dirs, plan, faults).results[i] != Succeeded
    ensures p in SubmitAll(files, dirs, plan, faults).files <==> p in files
    ensures p in files ==> SubmitAll(files, dirs, plan, faults).files[p] == files[p]
    decreases |plan|
  {
    if plan != [] {
      var sub := SubmitAll(files, dirs, plan, faults);
      var res := CopyOutcome(files, dirs, plan[0].src, plan[0].dest, faults);
      var next := AfterCopy(files, plan[0].src, plan[0].dest, res);
      var rest := SubmitAll(next, dirs, plan[1..], faults);
      assert sub == Submitted(rest.files, [res] + rest.results);
      forall j | 0 <= j < |plan[1..]| && plan[1..][j].dest == p ensures rest.results[j] != Succeeded {
        IndexPastPrefix([res], rest.results, j + 1);
        assert plan[1..][j] == plan[j + 1];
      }
      SubmitAllUntouched(next, dirs, plan[1..], faults, p);
    }
  }

  /**
   * With any mix of outcomes on a plan where no task reads a file another
   * writes, a destination whose copy succeeded holds its source's time.
   */
  lemma {:induction false} SubmitAllAt(files: Files, dirs: set<Path>, plan: seq<Task>, faults: map<Path, Fault>, i: nat)
    requires forall t :: t in plan ==> t.src in files
    requires Separate(plan)
    requires i < |plan| && SubmitAll(files, dirs, plan, faults).results[i] == Succeeded
    ensures plan[i].dest in SubmitAll(files, dirs, plan, faults).files
    ensures SubmitAll(files, dirs, plan, faults).files[plan[i].dest] == files[plan[i].src]
    decreases |plan|
  {
    var t0, p := plan[0], plan[i].dest;
    var res := CopyOutcome(files, dirs, t0.src, t0.dest, faults);
    var next := AfterCopy(files, t0.src, t0.dest, res);
    var rest := SubmitAll(next, dirs, plan[1..], faults);
    assert SubmitAll(files, dirs, plan, faults) == Submitted(rest.files, [res] + rest.results);
    SeparateTail(files, plan);
    if i > 0 {
      assert plan[1..][i - 1] == plan[i];
      SubmitAllAt(next, dirs, plan[1..], faults, i - 1);
    } else if j :| 0 <= j < |plan[1..]| && plan[1..][j].dest == p && rest.results[j] == Succeeded {
      SubmitAllAt(next, dirs, plan[1..], faults, j);
    } else {
      SubmitAllUntouched(next, dirs, plan[1..], faults, p);
    }
  }

  lemma {:induction false} AllSucceededCount(results: seq<CopyResult>, order: seq<nat>)
    requires forall k :: 0 <= k < |order| ==> order[k] < |results|
    requires forall i :: 0 <= i < |results| ==> results[i] == Succeeded
    ensures CountResults(results, order, Succeeded) == |order|
  {
    if order != [] {
      AllSucceededCount(results, order[1..]);
    }
  }

  // ---------------------------------------------------------------------------
  // The two branches after the scan

  lemma {:induction false} NoCopies(e: seq<Event>)
    requires forall k :: 0 <= k < |e| ==> e[k] != FileCopied
    ensures Copies(e) == 0
  {
    if e != [] {
      NoCopies(e[1..]);
    }
  }

  /** `e` announces a total of `n` once, as its second event, counts copies only after it, and never finishes. */
  predicate Announced(e: seq<Event>, n: nat) {
    && |e| >= 2 && e[1] == Total(n)
    && (forall j :: 0 <= j < |e| && e[j].Total? ==> j == 1)
    && (forall j :: 0 <= j < |e| && e[j] == FileCopied ==> j > 2)
    && Finished !in e
  }

  /** The frame every uncancelled run puts around its loop's events. */
  lemma Framed(n: nat, opening: Message, middle: seq<Event>, closing: Message)
    requires Progress(middle)
    ensures var e := [Log(Scanning), Total(n), Log(opening)] + middle + [Log(closing)];
      && Announced(e, n)
      && e[|e| - 1] == Log(closing)
      && Copies(e) == Copies(middle)
  {
    var head := [Log(Scanning), Total(n), Log(opening)];
    var e := head + middle + [Log(closing)];
    NoCopies(head);
    NoCopies([Log(closing)]);
    CopiesAppend(head, middle);
    CopiesAppend(head + middle, [Log(closing)]);
    forall j | 3 <= j < |e| - 1 ensures e[j] == middle[j - 3] {}
    forall k | 0 <= k < |e| ensures e[k] != Finished {
      if 3 <= k < |e| - 1 {
        assert e[k] == middle[k - 3];
      }
    }
  }

  /** A dry run announces the plan's length and counts no more than it. */
  lemma DryRunBranchFrame(files: Files, dirs: set<Path>, plan: seq<Task>, s: Schedule, gate: nat)
    ensures var e := DryRunOutcome(files, dirs, plan, s, gate).events;
      Announced(e, |plan|) && Copies(e) <= |plan|
  {
    var d := DryRun(plan, s, gate + 1);
    DryRunCopiesBounded(plan, s, gate + 1);
    Framed(|plan|, DryRunStarted, d.events, DryRunConcluded);
  }

  /** A real run announces the plan's length and counts no more than it. */
  lemma RealRunBranchFrame(files: Files, dirs: set<Path>, plan: seq<Task>, faults: map<Path, Fault>, order: seq<nat>,
                           s: Schedule, gate: nat)
    requires CompletionOrder(order, |plan|)
    ensures var e := RealRun(files, dirs, plan, faults, order, s, gate).events;
      Announced(e, |plan|) && Copies(e) <= |plan|
  {
    var made := WithParents(files, dirs, plan);
    var sub := SubmitAll(files, made, plan, faults);
    var res := Results(plan, sub.results, order, s, gate + 1);
    var last := if Observed(s, res.polls) then SyncCancelled else SyncCompleted;
    ResultsCopiesBounded(plan, sub.results, order, s, gate + 1);
    Framed(|plan|, Found(|plan|), res.events, last);
    assert RealRun(files, dirs, plan, faults, order, s, gate).events
      == [Log(Scanning), Total(|plan|), Log(Found(|plan|))] + res.events + [Log(last)];
  }

  /** Without cancellation a dry run counts every planned task and leaves the filesystem as it was. */
  lemma DryRunBranchQuiet(files: Files, dirs: set<Path>, plan: seq<Task>, s: Schedule, gate: nat)
    requires QuietBefore(s, gate + 1 + |plan|)
    ensures var o := DryRunOutcome(files, dirs, plan, s, gate);
      && o.events[1] == Total(|plan|)
      && Copies(o.events) == |plan|
      && o.files == files && o.dirs == dirs
  {
    var d := DryRun(plan, s, gate + 1);
    DryRunQuiet(plan, s, gate + 1);
    Framed(|plan|, DryRunStarted, d.events, DryRunConcluded);
  }

  /**
   * A real run reports completion when no poll up to its last one sees the
   * flag; and when it reports completion, it counted every successful copy.
   */
  lemma RealRunBranchCompletion(files: Files, dirs: set<Path>, plan: seq<Task>, faults: map<Path, Fault>, order: seq<nat>,
                                s: Schedule, gate: nat)
    requires CompletionOrder(order, |plan|)
    ensures var o := RealRun(files, dirs, plan, faults, order, s, gate);
      var results := SubmitAll(files, WithParents(files, dirs, plan), plan, faults).results;
      && (QuietBefore(s, gate + 2 + |plan|) ==> o.events[|o.events| - 1] == Log(SyncCompleted))
      && (o.events[|o.events| - 1] == Log(SyncCompleted) ==> Copies(o.events) == CountResults(results, order, Succeeded))
  {
    var made := WithParents(files, dirs, plan);
    var sub := SubmitAll(files, made, plan, faults);
    var res := Results(plan, sub.results, order, s, gate + 1);
    var last := if Observed(s, res.polls) then SyncCancelled else SyncCompleted;
    Framed(|plan|, Found(|plan|), res.events, last);
    if QuietBefore(s, gate + 2 + |plan|) {
      ResultsAccounting(plan, sub.results, order, s, gate + 1);
    }
    if !Observed(s, res.polls) {
      ResultsCompleteUnlessCancelled(plan, sub.results, order, s, gate + 1);
      ResultsAccounting(plan, sub.results, order, s, gate + 1);
    }
  }

  // ---------------------------------------------------------------------------
  // Whole runs

  /** A quiet scan reaches the gate with the plan of the whole walk. */
  lemma QuietScanReachesGate(files: Files, source: Path, dests: seq<Path>, walk: seq<DirEntry>, s: Schedule)
    requires WalkIn(files, source, walk)
    requires QuietBefore(s, ScanPolls(walk) + 1)
    ensures ScanOf(files, source, dests, walk, s) == Scan(Plan(files, source, dests, RelPaths(walk)), ScanPolls(walk))
    ensures !Observed(s, ScanOf(files, source, dests, walk, s).polls)
  {
    ScanQuiet(files, source, dests, walk, s, 0);
  }

  /** A run that sees the flag right after the scan announces no total, counts no copy and touches nothing. */
  lemma GateStopsRun(files: Files, dirs: set<Path>, source: Path, dests: seq<Path>, dryRun: bool, walk: seq<DirEntry>,
                     faults: map<Path, Fault>, order: seq<nat>, s: Schedule)
    requires WalkIn(files, source, walk)
    requires CompletionOrder(order, |ScanOf(files, source, dests, walk, s).plan|)
    requires Observed(s, ScanOf(files, source, dests, walk, s).polls)
    ensures var o := Sync(files, dirs, source, dests, dryRun, walk, faults, order, s);
      && o.events == [Log(Scanning), Log(ScanCancelled)]
      && o.files == files && o.dirs == dirs
  {
  }

  /**
   * `Total` is announced at most once, right after the scanning line, and
   * only with the length of the plan of the whole walk: a scan cut short
   * by cancellation is never totalled. Every `FileCopied` comes after it,
   * there are never more of them than the total, and the run never emits
   * `finished` itself.
   */
  lemma TotalPrecedesCopies(files: Files, dirs: set<Path>, source: Path, dests: seq<Path>, dryRun: bool, walk: seq<DirEntry>,
                            faults: map<Path, Fault>, order: seq<nat>, s: Schedule)
    requires WalkIn(files, source, walk)
    requires CompletionOrder(order, |ScanOf(files, source, dests, walk, s).plan|)
    ensures var e := Sync(files, dirs, source, dests, dryRun, walk, faults, order, s).events;
      var n := |Plan(files, source, dests, RelPaths(walk))|;
      && (forall j :: 0 <= j < |e| && e[j].Total? ==> j == 1 && e[j].count == n)
      && (forall j :: 0 <= j < |e| && e[j] == FileCopied ==> j > 2 && e[1] == Total(n))
      && Copies(e) <= n
      && Finished !in e
  {
    var scan := ScanOf(files, source, dests, walk, s);
    var e := Sync(files, dirs, source, dests, dryRun, walk, faults, order, s).events;
    if !Observed(s, scan.polls) {
      ScanCompleteUnlessCancelled(files, source, dests, walk, s);
      if dryRun {
        assert e == DryRunOutcome(files, dirs, scan.plan, s, scan.polls).events;
        DryRunBranchFrame(files, dirs, scan.plan, s, scan.polls);
      } else {
        assert e == RealRun(files, dirs, scan.plan, faults, order, s, scan.polls).events;
        RealRunBranchFrame(files, dirs, scan.plan, faults, order, s, scan.polls);
      }
      assert Announced(e, |scan.plan|);
    } else {
      NoCopies([Log(Scanning), Log(ScanCancelled)]);
    }
  }

  /** Without cancellation a dry run counts every planned task and leaves the filesystem as it was. */
  lemma DryRunCountsWholePlan(files: Files, dirs: set<Path>, source: Path, dests: seq<Path>, walk: seq<DirEntry>,
                              faults: map<Path, Fault>, order: seq<nat>, s: Schedule)
    requires WalkIn(files, source, walk)
    requires CompletionOrder(order, |ScanOf(files, source, dests, walk, s).plan|)
    requires QuietBefore(s, ScanPolls(walk) + 1 + |Plan(files, source, dests, RelPaths(walk))|)
    ensures var o := Sync(files, dirs, source, dests, true, walk, faults, order, s);
      var n := |Plan(files, source, dests, RelPaths(walk))|;
      && o.events[1] == Total(n)
      && Copies(o.events) == n
      && o.files == files && o.dirs == dirs
  {
    QuietScanReachesGate(files, source, dests, walk, s);
    var plan := Plan(files, source, dests, RelPaths(walk));
    DryRunBranchQuiet(files, dirs, plan, s, ScanPolls(walk));
  }

  /** A real run that no poll up to its last one sees cancelled reports completion. */
  lemma RealRunCompletesWhenQuiet(files: Files, dirs: set<Path>, source: Path, dests: seq<Path>, walk: seq<DirEntry>,
                                  faults: map<Path, Fault>, order: seq<nat>, s: Schedule)
    requires WalkIn(files, source, walk)
    requires CompletionOrder(order, |ScanOf(files, source, dests, walk, s).plan|)
    requires QuietBefore(s, ScanPolls(walk) + 2 + |Plan(files, source, dests, RelPaths(walk))|)
    ensures var e := Sync(files, dirs, source, dests, false, walk, faults, order, s).events;
      e[|e| - 1] == Log(SyncCompleted)
  {
    var plan := Plan(files, source, dests, RelPaths(walk));
    QuietScanReachesGate(files, source, dests, walk, s);
    assert Sync(files, dirs, source, dests, false, walk, faults, order, s) == RealRun(files, dirs, plan, faults, order, s, ScanPolls(walk));
    RealRunBranchCompletion(files, dirs, plan, faults, order, s, ScanPolls(walk));
  }

  /**
   * A real run that reports completion went through the whole plan and
   * counted every successful copy.
   */
  lemma CompletionCountsEveryCopy(files: Files, dirs: set<Path>, source: Path, dests: seq<Path>, walk: seq<DirEntry>,
                                  faults: map<Path, Fault>, order: seq<nat>, s: Schedule)
    requires WalkIn(files, source, walk)
    requires CompletionOrder(order, |ScanOf(files, source, dests, walk, s).plan|)
    ensures var e := Sync(files, dirs, source, dests, false, walk, faults, order, s).events;
      var plan := Plan(files, source, dests, RelPaths(walk));
      e[|e| - 1] == Log(SyncCompleted) ==>
        && CompletionOrder(order, |plan|)
        && Copies(e) == CountResults(SubmitAll(files, WithParents(files, dirs, plan), plan, faults).results, order, Succeeded)
  {
    var scan := ScanOf(files, source, dests, walk, s);
    var o := Sync(files, dirs, source, dests, false, walk, faults, order, s);
    if !Observed(s, scan.polls) {
      ScanCompleteUnlessCancelled(files, source, dests, walk, s);
      var plan := scan.plan;
      assert o == RealRun(files, dirs, plan, faults, order, s, scan.polls);
      RealRunBranchCompletion(files, dirs, plan, faults, order, s, scan.polls);
    } else {
      assert o.events == [Log(Scanning), Log(ScanCancelled)];
    }
  }

  /** Without cancellation, a real run in which every copy succeeds counts as many copies as a dry run would. */
  lemma RealRunCountsLikeDryRun(files: Files, dirs: set<Path>, source: Path, dests: seq<Path>, walk: seq<DirEntry>,
                                faults: map<Path, Fault>, order: seq<nat>, s: Schedule)
    requires WalkIn(files, source, walk)
    requires CompletionOrder(order, |ScanOf(files, source, dests, walk, s).plan|)
    requires QuietBefore(s, ScanPolls(walk) + 2 + |Plan(files, source, dests, RelPaths(walk))|)
    requires var plan := Plan(files, source, dests, RelPaths(walk));
      forall i :: 0 <= i < |plan| ==> SubmitAll(files, WithParents(files, dirs, plan), plan, faults).results[i] == Succeeded
    ensures Copies(Sync(files, dirs, source, dests, false, walk, faults, order, s).events) ==
            Copies(Sync(files, dirs, source, dests, true, walk, faults, order, s).events)
  {
    var plan := Plan(files, source, dests, RelPaths(walk));
    QuietScanReachesGate(files, source, dests, walk, s);
    DryRunBranchQuiet(files, dirs, plan, s, ScanPolls(walk));
    RealRunBranchCompletion(files, dirs, plan, faults, order, s, ScanPolls(walk));
    AllSucceededCount(SubmitAll(files, WithParents(files, dirs, plan), plan, faults).results, order);
  }

  /**
   * Idempotence of a whole run: when nothing cancels the scan, destinations
   * and source do not overlap, and every copy succeeds, planning again over
   * the same walk finds nothing to copy.
   */
  lemma RealRunIdempotent(files: Files, dirs: set<Path>, source: Path, dests: seq<Path>, walk: seq<DirEntry>,
                          faults: map<Path, Fault>, order: seq<nat>, s: Schedule)
    requires WalkIn(files, source, walk)
    requires NoOverlap(source, dests, RelPaths(walk))
    requires CompletionOrder(order, |ScanOf(files, source, dests, walk, s).plan|)
    requires QuietBefore(s, ScanPolls(walk) + 1)
    requires var plan := Plan(files, source, dests, RelPaths(walk));
      forall i :: 0 <= i < |plan| ==> SubmitAll(files, WithParents(files, dirs, plan), plan, faults).results[i] == Succeeded
    ensures var after := Sync(files, dirs, source, dests, false, walk, faults, order, s).files;
      WalkIn(after, source, walk) && Plan(after, source, dests, RelPaths(walk)) == []
  {
    QuietScanReachesGate(files, source, dests, walk, s);
    var plan := Plan(files, source, dests, RelPaths(walk));
    var made := WithParents(files, dirs, plan);
    ReplanAfterApplyIsEmpty(files, source, dests, RelPaths(walk));
    SubmitAllSucceeded(files, made, plan, faults);
  }

  /**
   * Whatever mix of copies succeeds or fails, and even when the flag is raised
   * while results are collected, a real run whose scan was not cancelled leaves
   * every path either as it was or holding the time of the source file it
   * mirrors.
   */
  lemma RealRunWritesOnlyCopies(files: Files, dirs: set<Path>, source: Path, dests: seq<Path>, walk: seq<DirEntry>,
                                faults: map<Path, Fault>, order: seq<nat>, s: Schedule, p: Path)
    requires WalkIn(files, source, walk)
    requires NoOverlap(source, dests, RelPaths(walk))
    requires CompletionOrder(order, |ScanOf(files, source, dests, walk, s).plan|)
    requires QuietBefore(s, ScanPolls(walk) + 1)
    ensures var after := Sync(files, dirs, source, dests, false, walk, faults, order, s).files;
      || ((p in after <==> p in files) && (p in files ==> after[p] == files[p]))
      || (exists r, d :: r in RelPaths(walk) && d in dests && p == d + r && p in after && after[p] == files[source + r])
  {
    var rels := RelPaths(walk);
    var plan := Plan(files, source, dests, rels);
    QuietScanReachesGate(files, source, dests, walk, s);
    assert Sync(files, dirs, source, dests, false, walk, faults, order, s) == RealRun(files, dirs, plan, faults, order, s, ScanPolls(walk));
    PlanSeparate(files, source, dests, rels);
    var sub := SubmitAll(files, WithParents(files, dirs, plan), plan, faults);
    if i :| 0 <= i < |plan| && plan[i].dest == p && sub.results[i] == Succeeded {
      SubmitAllAt(files, WithParents(files, dirs, plan), plan, faults, i);
      PlanMembership(files, source, dests, rels, plan[i]);
    } else {
      SubmitAllUntouched(files, WithParents(files, dirs, plan), plan, faults, p);
    }
  }
}
