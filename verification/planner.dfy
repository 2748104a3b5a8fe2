/**
 * Building the copy plan: the walk over the source tree, the staleness test
 * per destination, and the cancellation polls of the scan. The plan is what
 * `sync_folders_for_gui` accumulates in `files_to_copy`.
 */
module Planner {
  import opened Paths
  import opened Cancellation
  import opened Storage

  /** One planned copy: a source file and the destination file it overwrites. */
  datatype Task = Task(src: Path, dest: Path)

  /** One step of the walk: a directory, relative to the source root, and the names of the files in it. */
  datatype DirEntry = DirEntry(dir: Path, names: seq<string>)

  /** The staleness test: copy unless the destination exists and is at least as new as the source. */
  predicate NeedsCopy(srcMTime: int, files: Files, dest: Path)
    ensures NeedsCopy(srcMTime, files, dest) <==> dest !in files || files[dest] < srcMTime
  {
    !(dest in files && srcMTime <= files[dest])
  }

  /** Every relative path lies under the source root as a file. */
  predicate SourcesIn(files: Files, source: Path, rels: seq<Path>) {
    forall r :: r in rels ==> source + r in files
  }

  /** The relative paths of the files of one directory, in listing order. */
  function Rels(dir: Path, names: seq<string>): (rels: seq<Path>)
    ensures |rels| == |names|
    ensures forall j :: 0 <= j < |names| ==> rels[j] == dir + [names[j]]
  {
    if names == [] then [] else [dir + [names[0]]] + Rels(dir, names[1..])
  }

  /** The relative paths of all files of the walk, in walk order. */
  function RelPaths(walk: seq<DirEntry>): (rels: seq<Path>)
  {
    if walk == [] then [] else Rels(walk[0].dir, walk[0].names) + RelPaths(walk[1..])
  }

  /** The walk lists files of the source tree (it is produced by walking that tree). */
  predicate WalkIn(files: Files, source: Path, walk: seq<DirEntry>) {
    SourcesIn(files, source, RelPaths(walk))
  }

  /** The tasks for one source file: one per destination, in destination order, where the destination is stale. */
  function PlanFile(files: Files, source: Path, dests: seq<Path>, rel: Path): (r: seq<Task>)
    requires source + rel in files
    ensures |r| <= |dests|
    ensures forall t :: t in r ==> t.src == source + rel
  {
    if dests == [] then []
    else
      (if NeedsCopy(files[source + rel], files, dests[0] + rel) then [Task(source + rel, dests[0] + rel)] else [])
      + PlanFile(files, source, dests[1..], rel)
  }

  /** The plan for a list of relative paths: file by file, each file's tasks destination by destination. */
  function Plan(files: Files, source: Path, dests: seq<Path>, rels: seq<Path>): (r: seq<Task>)
    requires SourcesIn(files, source, rels)
    ensures forall t :: t in r ==> t.src in files
  {
    if rels == [] then [] else PlanFile(files, source, dests, rels[0]) + Plan(files, source, dests, rels[1..])
  }

  /** What a scan produced, and how many polls of the cancellation flag it made. */
  datatype Scan = Scan(plan: seq<Task>, polls: nat)

  /** The inner scan loop over the files of one directory, polling once per file. */
  function ScanFiles(files: Files, source: Path, dests: seq<Path>, dir: Path, names: seq<string>,
                     s: Schedule, poll: nat): (r: Scan)
    requires SourcesIn(files, source, Rels(dir, names))
    ensures poll <= r.polls <= poll + |names|
  {
    if names == [] then Scan([], poll)
    else if Observed(s, poll) then Scan([], poll + 1)
    else
      var rest := ScanFiles(files, source, dests, dir, names[1..], s, poll + 1);
      Scan(PlanFile(files, source, dests, dir + [names[0]]) + rest.plan, rest.polls)
  }

  /** How many polls a scan of `walk` makes when nothing cancels it: one per directory and one per file. */
  function ScanPolls(walk: seq<DirEntry>): (n: nat)
  {
    if walk == [] then 0 else 1 + |walk[0].names| + ScanPolls(walk[1..])
  }

  /** The outer scan loop over the directories of the walk, polling once per directory. */
  function ScanDirs(files: Files, source: Path, dests: seq<Path>, walk: seq<DirEntry>,
                    s: Schedule, poll: nat): (r: Scan)
    requires WalkIn(files, source, walk)
    ensures poll <= r.polls <= poll + ScanPolls(walk)
  {
    if walk == [] then Scan([], poll)
    else if Observed(s, poll) then Scan([], poll + 1)
    else
      var here := ScanFiles(files, source, dests, walk[0].dir, walk[0].names, s, poll + 1);
      var rest := ScanDirs(files, source, dests, walk[1..], s, here.polls);
      Scan(here.plan + rest.plan, rest.polls)
  }

  // ---------------------------------------------------------------------------
  // The shape of the plan

  lemma {:induction false} PlanAppend(files: Files, source: Path, dests: seq<Path>, a: seq<Path>, b: seq<Path>)
    requires SourcesIn(files, source, a + b)
    ensures SourcesIn(files, source, a) && SourcesIn(files, source, b)
    ensures Plan(files, source, dests, a + b) == Plan(files, source, dests, a) + Plan(files, source, dests, b)
  {
    if a == [] {
      assert a + b == b;
    } else {
      assert (a + b)[1..] == a[1..] + b;
      assert (a + b)[0] == a[0];
      PlanAppend(files, source, dests, a[1..], b);
    }
  }

  /** A task is planned for a file exactly when it targets one of the destinations and that destination is stale. */
  lemma {:induction false} PlanFileMembership(files: Files, source: Path, dests: seq<Path>, rel: Path, t: Task)
    requires source + rel in files
    ensures t in PlanFile(files, source, dests, rel) <==>
      exists d :: d in dests && t == Task(source + rel, d + rel) && NeedsCopy(files[source + rel], files, d + rel)
  {
    if dests != [] {
      PlanFileMembership(files, source, dests[1..], rel, t);
      if t in PlanFile(files, source, dests[1..], rel) {
        var d :| d in dests[1..] && t == Task(source + rel, d + rel) && NeedsCopy(files[source + rel], files, d + rel);
        assert d in dests;
      }
      if exists d :: d in dests && t == Task(source + rel, d + rel) && NeedsCopy(files[source + rel], files, d + rel) {
        var d :| d in dests && t == Task(source + rel, d + rel) && NeedsCopy(files[source + rel], files, d + rel);
        if d != dests[0] {
          assert d in dests[1..];
        }
      }
    }
  }

  /**
   * A pair (source + rel, dest + rel) is planned exactly when rel is a walked
   * file, dest is one of the destinations, and the destination file is
   * absent or strictly older than the source file (equal times are skipped).
   */
  lemma {:induction false} PlanMembership(files: Files, source: Path, dests: seq<Path>, rels: seq<Path>, t: Task)
    requires SourcesIn(files, source, rels)
    ensures t in Plan(files, source, dests, rels) <==>
      exists r, d :: r in rels && d in dests && t == Task(source + r, d + r) &&
        (d + r !in files || files[source + r] > files[d + r])
  {
    if rels != [] {
      var r0 := rels[0];
      PlanFileMembership(files, source, dests, r0, t);
      PlanMembership(files, source, dests, rels[1..], t);
      if exists r, d :: r in rels && d in dests && t == Task(source + r, d + r) &&
          (d + r !in files || files[source + r] > files[d + r]) {
        var r, d :| r in rels && d in dests && t == Task(source + r, d + r) &&
          (d + r !in files || files[source + r] > files[d + r]);
        if r != r0 {
          assert r in rels[1..];
        } else {
          assert NeedsCopy(files[source + r0], files, d + r0);
        }
      }
      if t in PlanFile(files, source, dests, r0) {
        var d :| d in dests && t == Task(source + r0, d + r0) && NeedsCopy(files[source + r0], files, d + r0);
        assert r0 in rels;
      }
      if t in Plan(files, source, dests, rels[1..]) {
        var r, d :| r in rels[1..] && d in dests && t == Task(source + r, d + r) &&
          (d + r !in files || files[source + r] > files[d + r]);
        assert r in rels;
      }
    }
  }

  /**
   * Destinations are judged one by one: whether a file is planned for
   * destination d depends only on d's own copy, whatever the other
   * destinations hold.
   */
  lemma DestinationsIndependent(files: Files, source: Path, dests: seq<Path>, rel: Path, d: Path)
    requires source + rel in files && d in dests
    ensures Task(source + rel, d + rel) in PlanFile(files, source, dests, rel) <==>
      (d + rel !in files || files[source + rel] > files[d + rel])
  {
    var t := Task(source + rel, d + rel);
    PlanFileMembership(files, source, dests, rel, t);
    if t in PlanFile(files, source, dests, rel) {
      var d' :| d' in dests && t == Task(source + rel, d' + rel) && NeedsCopy(files[source + rel], files, d' + rel);
      JoinInjective(d', d, rel);
    }
  }

  /** File-major order: the tasks of the k-th file sit between those of the files before it and those after it. */
  lemma {:induction false} FileMajorOrder(files: Files, source: Path, dests: seq<Path>, rels: seq<Path>, k: nat)
    requires SourcesIn(files, source, rels) && k < |rels|
    ensures SourcesIn(files, source, rels[..k]) && SourcesIn(files, source, rels[k + 1..])
    ensures Plan(files, source, dests, rels) ==
      Plan(files, source, dests, rels[..k]) + PlanFile(files, source, dests, rels[k]) + Plan(files, source, dests, rels[k + 1..])
  {
    var before, at, after := rels[..k], rels[k..], rels[k + 1..];
    assert rels == before + at;
    PlanAppend(files, source, dests, before, at);
    assert at == [rels[k]] + after;
    assert at[0] == rels[k] && at[1..] == after;
    assert Plan(files, source, dests, at) == PlanFile(files, source, dests, rels[k]) + Plan(files, source, dests, after);
  }

  /** Every position moved one place on: positions in `b[1..]` as positions in `b`. */
  function Shift(ks: seq<nat>): (r: seq<nat>)
    ensures |r| == |ks| && forall i :: 0 <= i < |ks| ==> r[i] == ks[i] + 1
  {
    if ks == [] then [] else [ks[0] + 1] + Shift(ks[1..])
  }

  /** Indexing a concatenation past its first part indexes the second part. */
  lemma IndexPastPrefix<T>(a: seq<T>, b: seq<T>, i: nat)
    requires |a| <= i < |a| + |b|
    ensures (a + b)[i] == b[i - |a|]
  {
  }

  /** The positions of the `true` entries of `b`, front to back. */
  function TruePositions(b: seq<bool>): (ks: seq<nat>)
  {
    if b == [] then [] else (if b[0] then [0] else []) + Shift(TruePositions(b[1..]))
  }

  /** The listed positions are strictly increasing: each is above the one before it. */
  lemma {:induction false} TruePositionsIncreasing(b: seq<bool>)
    ensures forall i :: 0 < i < |TruePositions(b)| ==> TruePositions(b)[i - 1] < TruePositions(b)[i]
  {
    if b != [] {
      TruePositionsIncreasing(b[1..]);
      var ks', sk, ks := TruePositions(b[1..]), Shift(TruePositions(b[1..])), TruePositions(b);
      var hk: seq<nat> := if b[0] then [0] else [];
      assert ks == hk + sk;
      forall i | 0 < i < |ks| ensures ks[i - 1] < ks[i] {
        IndexPastPrefix(hk, sk, i);
        if i - 1 >= |hk| {
          IndexPastPrefix(hk, sk, i - 1);
        } else {
          assert ks[i - 1] == 0;
        }
      }
    }
  }

  /** A position is listed exactly when `b` is true there. */
  lemma {:induction false} TruePositionsExact(b: seq<bool>)
    ensures forall k :: 0 <= k < |b| ==> (k in TruePositions(b) <==> b[k])
  {
    if b != [] {
      TruePositionsExact(b[1..]);
      var ks', sk, ks := TruePositions(b[1..]), Shift(TruePositions(b[1..])), TruePositions(b);
      var hk: seq<nat> := if b[0] then [0] else [];
      assert ks == hk + sk;
      assert 0 !in sk;
      forall k | 0 < k < |b| ensures k in ks <==> b[k] {
        assert b[1..][k - 1] == b[k];
        assert k in ks <==> k in sk;
        if k - 1 in ks' {
          var i' :| 0 <= i' < |ks'| && ks'[i'] == k - 1;
          assert sk[i'] == k;
        }
        if k in sk {
          var i' :| 0 <= i' < |sk| && sk[i'] == k;
          assert ks'[i'] == k - 1;
        }
      }
    }
  }

  /** Which destinations are stale for a source file with time `srcMTime`, destination by destination. */
  function Staleness(srcMTime: int, files: Files, dests: seq<Path>, rel: Path): (b: seq<bool>)
    ensures |b| == |dests|
  {
    if dests == [] then [] else [NeedsCopy(srcMTime, files, dests[0] + rel)] + Staleness(srcMTime, files, dests[1..], rel)
  }

  lemma {:induction false} StalenessAt(srcMTime: int, files: Files, dests: seq<Path>, rel: Path)
    ensures forall k :: 0 <= k < |dests| ==> Staleness(srcMTime, files, dests, rel)[k] == NeedsCopy(srcMTime, files, dests[k] + rel)
  {
    if dests != [] {
      StalenessAt(srcMTime, files, dests[1..], rel);
      forall k | 0 < k < |dests|
        ensures Staleness(srcMTime, files, dests, rel)[k] == NeedsCopy(srcMTime, files, dests[k] + rel)
      {
        assert dests[1..][k - 1] == dests[k];
      }
    }
  }

  /** The positions in `dests` of the stale destinations of a source file, front to back. */
  function StaleIndices(files: Files, source: Path, dests: seq<Path>, rel: Path): seq<nat>
    requires source + rel in files
  {
    TruePositions(Staleness(files[source + rel], files, dests, rel))
  }

  /** The i-th task of a file copies it into the destination at the i-th stale position. */
  /** Tasks found past the first destination sit one position further along the whole destination list. */
  lemma {:induction false} ShiftedTasks(src: Path, rel: Path, dests: seq<Path>, hr: seq<Task>, r': seq<Task>, hk: seq<nat>, ks': seq<nat>)
    requires dests != [] && |hr| == |hk| && |r'| == |ks'|
    requires forall i :: 0 <= i < |ks'| ==> ks'[i] < |dests[1..]| && r'[i] == Task(src, dests[1..][ks'[i]] + rel)
    ensures forall i :: |hk| <= i < |hk| + |ks'| ==>
      (hk + Shift(ks'))[i] < |dests| && (hr + r')[i] == Task(src, dests[(hk + Shift(ks'))[i]] + rel)
  {
    forall i | |hk| <= i < |hk| + |ks'|
      ensures (hk + Shift(ks'))[i] < |dests| && (hr + r')[i] == Task(src, dests[(hk + Shift(ks'))[i]] + rel)
    {
      IndexPastPrefix(hk, Shift(ks'), i);
      IndexPastPrefix(hr, r', i);
      assert dests[1..][ks'[i - |hk|]] == dests[ks'[i - |hk|] + 1];
    }
  }

  lemma {:induction false} PlanFileAtStale(files: Files, source: Path, dests: seq<Path>, rel: Path)
    requires source + rel in files
    ensures |PlanFile(files, source, dests, rel)| == |StaleIndices(files, source, dests, rel)|
    ensures forall i :: 0 <= i < |StaleIndices(files, source, dests, rel)| ==>
      && StaleIndices(files, source, dests, rel)[i] < |dests|
      && PlanFile(files, source, dests, rel)[i] == Task(source + rel, dests[StaleIndices(files, source, dests, rel)[i]] + rel)
  {
    if dests != [] {
      PlanFileAtStale(files, source, dests[1..], rel);
      var t := files[source + rel];
      var b := Staleness(t, files, dests, rel);
      assert b[0] == NeedsCopy(t, files, dests[0] + rel) && b[1..] == Staleness(t, files, dests[1..], rel);
      var r', ks' := PlanFile(files, source, dests[1..], rel), StaleIndices(files, source, dests[1..], rel);
      var hr := if b[0] then [Task(source + rel, dests[0] + rel)] else [];
      var hk: seq<nat> := if b[0] then [0] else [];
      var r, ks, sk := PlanFile(files, source, dests, rel), StaleIndices(files, source, dests, rel), Shift(ks');
      assert r == hr + r' && ks == hk + sk;
      ShiftedTasks(source + rel, rel, dests, hr, r', hk, ks');
    }
  }

  /**
   * Destination-minor order, whatever mix of destinations is stale: a file's
   * tasks are one per stale destination, and they follow the destination
   * list, the stale positions being strictly increasing.
   */
  lemma {:induction false} DestinationMinorOrder(files: Files, source: Path, dests: seq<Path>, rel: Path)
    requires source + rel in files
    ensures |PlanFile(files, source, dests, rel)| == |StaleIndices(files, source, dests, rel)|
    ensures forall i :: 0 <= i < |StaleIndices(files, source, dests, rel)| ==>
      && StaleIndices(files, source, dests, rel)[i] < |dests|
      && PlanFile(files, source, dests, rel)[i] == Task(source + rel, dests[StaleIndices(files, source, dests, rel)[i]] + rel)
    ensures forall i :: 0 < i < |StaleIndices(files, source, dests, rel)| ==>
      StaleIndices(files, source, dests, rel)[i - 1] < StaleIndices(files, source, dests, rel)[i]
    ensures forall k :: 0 <= k < |dests| ==>
      (k in StaleIndices(files, source, dests, rel) <==> NeedsCopy(files[source + rel], files, dests[k] + rel))
  {
    var b := Staleness(files[source + rel], files, dests, rel);
    PlanFileAtStale(files, source, dests, rel);
    TruePositionsIncreasing(b);
    TruePositionsExact(b);
    StalenessAt(files[source + rel], files, dests, rel);
  }

  // ---------------------------------------------------------------------------
  // Cancellation during the scan

  /** Without cancellation the inner loop plans every file of the directory. */
  lemma {:induction false} ScanFilesQuiet(files: Files, source: Path, dests: seq<Path>, dir: Path, names: seq<string>,
                                          s: Schedule, poll: nat)
    requires SourcesIn(files, source, Rels(dir, names))
    requires QuietBefore(s, poll + |names|)
    ensures ScanFiles(files, source, dests, dir, names, s, poll) ==
      Scan(Plan(files, source, dests, Rels(dir, names)), poll + |names|)
  {
    if names != [] {
      ScanFilesQuiet(files, source, dests, dir, names[1..], s, poll + 1);
    }
  }

  /** Without cancellation the scan plans every walked file: its plan is the plan of the whole walk. */
  lemma {:induction false} ScanQuiet(files: Files, source: Path, dests: seq<Path>, walk: seq<DirEntry>,
                                     s: Schedule, poll: nat)
    requires WalkIn(files, source, walk)
    requires QuietBefore(s, poll + ScanPolls(walk))
    ensures ScanDirs(files, source, dests, walk, s, poll) ==
      Scan(Plan(files, source, dests, RelPaths(walk)), poll + ScanPolls(walk))
  {
    if walk != [] {
      var e := walk[0];
      var a := Rels(e.dir, e.names);
      var b := RelPaths(walk[1..]);
      assert RelPaths(walk) == a + b;
      PlanAppend(files, source, dests, a, b);
      assert !Observed(s, poll);
      ScanFilesQuiet(files, source, dests, e.dir, e.names, s, poll + 1);
      var here := ScanFiles(files, source, dests, e.dir, e.names, s, poll + 1);
      assert here == Scan(Plan(files, source, dests, a), poll + 1 + |e.names|);
      ScanQuiet(files, source, dests, walk[1..], s, here.polls);
      var rest := ScanDirs(files, source, dests, walk[1..], s, here.polls);
      assert rest == Scan(Plan(files, source, dests, b), here.polls + ScanPolls(walk[1..]));
      assert ScanDirs(files, source, dests, walk, s, poll) == Scan(here.plan + rest.plan, rest.polls);
    }
  }

  /** `r` planned exactly the first `m` of `rels`, and if it stopped short its last poll saw the flag set. */
  predicate StoppedAt(files: Files, source: Path, dests: seq<Path>, rels: seq<Path>, s: Schedule, r: Scan, m: nat) {
    && m <= |rels|
    && SourcesIn(files, source, rels[..m])
    && r.plan == Plan(files, source, dests, rels[..m])
    && (m < |rels| ==> Observed(s, r.polls))
  }

  lemma SourcesInPrefix(files: Files, source: Path, rels: seq<Path>, m: nat)
    requires SourcesIn(files, source, rels) && m <= |rels|
    ensures SourcesIn(files, source, rels[..m])
  {
    forall r | r in rels[..m] ensures source + r in files {
      var i :| 0 <= i < m && rels[..m][i] == r;
      assert rels[i] == r;
    }
  }

  lemma {:induction false} ScanFilesStopsAtFile(files: Files, source: Path, dests: seq<Path>, dir: Path, names: seq<string>,
                                                s: Schedule, poll: nat)
    requires SourcesIn(files, source, Rels(dir, names))
    ensures exists m :: StoppedAt(files, source, dests, Rels(dir, names), s, ScanFiles(files, source, dests, dir, names, s, poll), m)
  {
    var r := ScanFiles(files, source, dests, dir, names, s, poll);
    var all := Rels(dir, names);
    if names == [] || Observed(s, poll) {
      assert all[..0] == [];
      assert StoppedAt(files, source, dests, all, s, r, 0);
    } else {
      var tail := Rels(dir, names[1..]);
      var rest := ScanFiles(files, source, dests, dir, names[1..], s, poll + 1);
      ScanFilesStopsAtFile(files, source, dests, dir, names[1..], s, poll + 1);
      var m: nat :| StoppedAt(files, source, dests, tail, s, rest, m);
      assert all == [dir + [names[0]]] + tail;
      assert all[..m + 1] == [dir + [names[0]]] + tail[..m];
      assert all[..m + 1][0] == dir + [names[0]] && all[..m + 1][1..] == tail[..m];
      SourcesInPrefix(files, source, all, m + 1);
      assert r.plan == Plan(files, source, dests, all[..m + 1]);
      assert StoppedAt(files, source, dests, all, s, r, m + 1);
    }
  }

  /** The outer loop, when the directory's inner loop stopped short: nothing more is planned. */
  lemma InnerStopEndsScan(files: Files, source: Path, dests: seq<Path>, walk: seq<DirEntry>, s: Schedule, poll: nat)
    requires WalkIn(files, source, walk)
    requires Observed(s, poll)
    ensures ScanDirs(files, source, dests, walk, s, poll).plan == []
    ensures Observed(s, ScanDirs(files, source, dests, walk, s, poll).polls)
  {
  }

  /**
   * Cancellation is polled per directory and per file, never between the
   * destinations of one file: whatever the schedule, the scan's plan is the
   * plan of a prefix of the walked files, and a scan that stopped short has
   * seen the flag set by its last poll.
   */
  lemma {:induction false} ScanStopsAtFileBoundary(files: Files, source: Path, dests: seq<Path>, walk: seq<DirEntry>,
                                                   s: Schedule, poll: nat)
    requires WalkIn(files, source, walk)
    ensures exists m :: StoppedAt(files, source, dests, RelPaths(walk), s, ScanDirs(files, source, dests, walk, s, poll), m)
    decreases |walk|, 1
  {
    if walk == [] || Observed(s, poll) {
      var all := RelPaths(walk);
      assert all[..0] == [];
      assert StoppedAt(files, source, dests, all, s, ScanDirs(files, source, dests, walk, s, poll), 0);
    } else {
      ScanNextDir(files, source, dests, walk, s, poll);
    }
  }

  /** The step of ScanStopsAtFileBoundary for a directory whose poll did not see the flag. */
  lemma {:induction false} ScanNextDir(files: Files, source: Path, dests: seq<Path>, walk: seq<DirEntry>,
                                       s: Schedule, poll: nat)
    requires WalkIn(files, source, walk) && walk != [] && !Observed(s, poll)
    ensures exists m :: StoppedAt(files, source, dests, RelPaths(walk), s, ScanDirs(files, source, dests, walk, s, poll), m)
    decreases |walk|, 0
  {
    var e := walk[0];
    var a := Rels(e.dir, e.names);
    var b := RelPaths(walk[1..]);
    assert RelPaths(walk) == a + b;
    PlanAppend(files, source, dests, a, b);
    var here := ScanFiles(files, source, dests, e.dir, e.names, s, poll + 1);
    ScanFilesStopsAtFile(files, source, dests, e.dir, e.names, s, poll + 1);
    var m1: nat :| StoppedAt(files, source, dests, a, s, here, m1);
    if m1 < |a| {
      InnerStopEndsScan(files, source, dests, walk[1..], s, here.polls);
      StopInsideDir(files, source, dests, walk, s, poll, m1);
    } else {
      assert a[..m1] == a;
      var rest := ScanDirs(files, source, dests, walk[1..], s, here.polls);
      ScanStopsAtFileBoundary(files, source, dests, walk[1..], s, here.polls);
      var m2: nat :| StoppedAt(files, source, dests, b, s, rest, m2);
      DirThenRest(files, source, dests, walk, s, poll, m2);
    }
  }

  lemma StopInsideDir(files: Files, source: Path, dests: seq<Path>, walk: seq<DirEntry>, s: Schedule, poll: nat, m1: nat)
    requires WalkIn(files, source, walk) && walk != [] && !Observed(s, poll)
    requires var e := walk[0];
      && SourcesIn(files, source, Rels(e.dir, e.names))
      && var here := ScanFiles(files, source, dests, e.dir, e.names, s, poll + 1);
      && StoppedAt(files, source, dests, Rels(e.dir, e.names), s, here, m1)
      && m1 < |e.names|
      && SourcesIn(files, source, RelPaths(walk[1..]))
      && ScanDirs(files, source, dests, walk[1..], s, here.polls).plan == []
      && Observed(s, ScanDirs(files, source, dests, walk[1..], s, here.polls).polls)
    ensures StoppedAt(files, source, dests, RelPaths(walk), s, ScanDirs(files, source, dests, walk, s, poll), m1)
  {
    var e := walk[0];
    var a := Rels(e.dir, e.names);
    var all := RelPaths(walk);
    assert all == a + RelPaths(walk[1..]);
    assert all[..m1] == a[..m1];
    SourcesInPrefix(files, source, all, m1);
  }

  lemma DirThenRest(files: Files, source: Path, dests: seq<Path>, walk: seq<DirEntry>, s: Schedule, poll: nat, m2: nat)
    requires WalkIn(files, source, walk) && walk != [] && !Observed(s, poll)
    requires var e := walk[0];
      && SourcesIn(files, source, Rels(e.dir, e.names))
      && var here := ScanFiles(files, source, dests, e.dir, e.names, s, poll + 1);
      && here.plan == Plan(files, source, dests, Rels(e.dir, e.names))
      && SourcesIn(files, source, RelPaths(walk[1..]))
      && StoppedAt(files, source, dests, RelPaths(walk[1..]), s, ScanDirs(files, source, dests, walk[1..], s, here.polls), m2)
    ensures StoppedAt(files, source, dests, RelPaths(walk), s, ScanDirs(files, source, dests, walk, s, poll),
                      |walk[0].names| + m2)
  {
    var e := walk[0];
    var a := Rels(e.dir, e.names);
    var b := RelPaths(walk[1..]);
    var all := RelPaths(walk);
    assert all == a + b;
    PrefixPastHead(a, b, m2);
    SourcesInPrefix(files, source, all, |a| + m2);
    PlanAppend(files, source, dests, a, b[..m2]);
    var here := ScanFiles(files, source, dests, e.dir, e.names, s, poll + 1);
    var rest := ScanDirs(files, source, dests, walk[1..], s, here.polls);
    var r := ScanDirs(files, source, dests, walk, s, poll);
    assert r == Scan(here.plan + rest.plan, rest.polls);
    assert r.plan == Plan(files, source, dests, all[..|a| + m2]);
    assert |a| + m2 < |all| ==> m2 < |b| && Observed(s, r.polls);
  }

  /** A prefix reaching past the head of a concatenation keeps the whole head. */
  lemma PrefixPastHead<T>(a: seq<T>, b: seq<T>, m: nat)
    requires m <= |b|
    ensures (a + b)[..|a| + m] == a + b[..m]
  {
  }

  /** A scan whose closing poll does not see the flag set has planned every walked file. */
  lemma ScanCompleteUnlessCancelled(files: Files, source: Path, dests: seq<Path>, walk: seq<DirEntry>, s: Schedule)
    requires WalkIn(files, source, walk)
    requires !Observed(s, ScanDirs(files, source, dests, walk, s, 0).polls)
    ensures ScanDirs(files, source, dests, walk, s, 0).plan == Plan(files, source, dests, RelPaths(walk))
  {
    ScanStopsAtFileBoundary(files, source, dests, walk, s, 0);
    var all := RelPaths(walk);
    var m: nat :| StoppedAt(files, source, dests, all, s, ScanDirs(files, source, dests, walk, s, 0), m);
    assert all[..m] == all;
  }

  // ---------------------------------------------------------------------------
  // Idempotence

  /** Every planned copy applied as a metadata-preserving copy, in plan order. */
  function ApplyAll(files: Files, plan: seq<Task>): (r: Files)
    requires forall t :: t in plan ==> t.src in files
    ensures files.Keys <= r.Keys
    ensures forall t :: t in plan ==> t.dest in r
    decreases |plan|
  {
    if plan == [] then files
    else
      var next := files[plan[0].dest := files[plan[0].src]];
      assert forall t :: t in plan[1..] ==> t in plan;
      ApplyAll(next, plan[1..])
  }

  /** No task reads a file another task writes, and tasks that write the same file read the same file. */
  predicate Separate(plan: seq<Task>) {
    && (forall t1, t2 :: t1 in plan && t2 in plan ==> t1.src != t2.dest)
    && (forall t1, t2 :: t1 in plan && t2 in plan && t1.dest == t2.dest ==> t1.src == t2.src)
  }

  /** The tasks after the first of a separate plan form a separate plan, read no file the first writes, and copy the first's source wherever they share its destination. */
  lemma {:induction false} SeparateTail(files: Files, plan: seq<Task>)
    requires plan != [] && Separate(plan) && forall t :: t in plan ==> t.src in files
    ensures Separate(plan[1..])
    ensures forall t :: t in plan[1..] ==> t.src in files && t.src != plan[0].dest
    ensures forall j :: 0 <= j < |plan[1..]| && plan[1..][j].dest == plan[0].dest ==> plan[1..][j].src == plan[0].src
  {
    assert forall t :: t in plan[1..] ==> t in plan;
    assert plan[0] in plan;
  }

  /** After applying a separate plan, a written file holds its source's time and every other file is as it was. */
  lemma {:induction false} ApplyAllAt(files: Files, plan: seq<Task>, p: Path)
    requires forall t :: t in plan ==> t.src in files
    requires Separate(plan)
    ensures forall t :: t in plan && t.dest == p ==> ApplyAll(files, plan)[p] == files[t.src]
    ensures (forall t :: t in plan ==> t.dest != p) ==>
      (p in ApplyAll(files, plan) <==> p in files) && (p in files ==> ApplyAll(files, plan)[p] == files[p])
    decreases |plan|
  {
    if plan != [] {
      var t0 := plan[0];
      var next := files[t0.dest := files[t0.src]];
      assert forall t :: t in plan[1..] ==> t in plan;
      ApplyAllAt(next, plan[1..], p);
      forall t | t in plan[1..] ensures next[t.src] == files[t.src] {
        assert t.src != t0.dest;
      }
      if p == t0.dest && forall t :: t in plan[1..] ==> t.dest != p {
        assert ApplyAll(files, plan)[p] == files[t0.src];
      }
    }
  }

  /** Destination roots and source root do not overlap on the walked files. */
  predicate NoOverlap(source: Path, dests: seq<Path>, rels: seq<Path>) {
    && (forall r1, r2, d :: r1 in rels && r2 in rels && d in dests ==> d + r1 != source + r2)
    && (forall r1, r2, d1, d2 :: r1 in rels && r2 in rels && d1 in dests && d2 in dests && d1 + r1 == d2 + r2 ==> r1 == r2)
  }

  lemma PlanSeparate(files: Files, source: Path, dests: seq<Path>, rels: seq<Path>)
    requires SourcesIn(files, source, rels) && NoOverlap(source, dests, rels)
    ensures Separate(Plan(files, source, dests, rels))
    ensures forall t :: t in Plan(files, source, dests, rels) ==> t.src in files
  {
    var plan := Plan(files, source, dests, rels);
    forall t | t in plan
      ensures exists r, d :: r in rels && d in dests && t == Task(source + r, d + r)
    {
      PlanMembership(files, source, dests, rels, t);
    }
  }

  /** Under NoOverlap, the only task that can write `d + r` is the one that copies `source + r` there. */
  lemma PlannedDestOwner(files: Files, source: Path, dests: seq<Path>, rels: seq<Path>, t: Task, r: Path, d: Path)
    requires SourcesIn(files, source, rels) && NoOverlap(source, dests, rels)
    requires t in Plan(files, source, dests, rels) && r in rels && d in dests
    ensures t.dest == d + r ==> t == Task(source + r, d + r)
  {
    PlanMembership(files, source, dests, rels, t);
    var r', d' :| r' in rels && d' in dests && t == Task(source + r', d' + r') &&
      (d' + r' !in files || files[source + r'] > files[d' + r']);
    if t.dest == d + r {
      assert r' == r;
      JoinInjective(d', d, r);
    }
  }

  /**
   * Idempotence: once every planned task has been applied as a
   * metadata-preserving copy, planning again over the same walk finds
   * nothing to copy.
   */
  lemma ReplanAfterApplyIsEmpty(files: Files, source: Path, dests: seq<Path>, rels: seq<Path>)
    requires SourcesIn(files, source, rels) && NoOverlap(source, dests, rels)
    ensures var plan := Plan(files, source, dests, rels);
      && (forall t :: t in plan ==> t.src in files)
      && SourcesIn(ApplyAll(files, plan), source, rels)
      && Plan(ApplyAll(files, plan), source, dests, rels) == []
  {
    var plan := Plan(files, source, dests, rels);
    PlanSeparate(files, source, dests, rels);
    var after := ApplyAll(files, plan);
    // source files are never written
    forall r | r in rels ensures source + r in after && after[source + r] == files[source + r] {
      forall t | t in plan ensures t.dest != source + r {
        PlanMembership(files, source, dests, rels, t);
      }
      ApplyAllAt(files, plan, source + r);
    }
    // nothing is stale any more
    forall r, d | r in rels && d in dests ensures !NeedsCopy(after[source + r], after, d + r) {
      var t := Task(source + r, d + r);
      PlanMembership(files, source, dests, rels, t);
      ApplyAllAt(files, plan, d + r);
      forall t' | t' in plan ensures t'.dest == d + r ==> t' == t {
        PlannedDestOwner(files, source, dests, rels, t', r, d);
      }
    }
    if Plan(after, source, dests, rels) != [] {
      var t := Plan(after, source, dests, rels)[0];
      PlanMembership(after, source, dests, rels, t);
    }
  }
}
