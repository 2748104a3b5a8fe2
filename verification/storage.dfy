/**
 * The abstract filesystem: regular files with their modification times,
 * and the set of existing directories. Modification times are whole
 * numbers where the real system uses floating-point seconds.
 */
module Storage {
  import opened Paths

  type Files = map<Path, int>

  /** What goes wrong when `shutil.copy2` is called for a destination, as the environment decides. */
  datatype Fault =
    | SameFile    // the destination resolves to the source itself (a link): SameFileError
    | IOFailure   // permission denied, disk full, path too long, ...

  /** How one `shutil.copy2` call ends. */
  datatype CopyResult = Succeeded | SameFileError | Failed

  /** `Path.exists()`: true for files and directories alike. */
  predicate Exists(files: Files, dirs: set<Path>, p: Path)
    ensures p in files ==> Exists(files, dirs, p)
    ensures p in dirs ==> Exists(files, dirs, p)
    ensures Exists(files, dirs, p) ==> p in files || p in dirs
  {
    p in files || p in dirs
  }

  /**
   * The outcome of `shutil.copy2(src, dest)`: `SameFileError` when both name
   * the same existing file (checked before anything else), otherwise the
   * environment's fault for `dest` if any, a failure when the source is gone
   * or the destination's directory does not exist, success otherwise.
   */
  function CopyOutcome(files: Files, dirs: set<Path>, src: Path, dest: Path, faults: map<Path, Fault>): (r: CopyResult)
    ensures src == dest && src in files ==> r == SameFileError
    ensures r == Succeeded <==> src != dest && dest !in faults && src in files && Parent(dest) in dirs
    ensures r == SameFileError <==> (src == dest && src in files) || (dest in faults && faults[dest] == SameFile)
  {
    if src == dest && src in files then SameFileError
    else if dest in faults then
      (if faults[dest] == SameFile then SameFileError else Failed)
    else if src !in files || Parent(dest) !in dirs then Failed
    else Succeeded
  }

  /** The files after a copy that ended with `r`: a successful copy gives the destination the source's time. */
  function AfterCopy(files: Files, src: Path, dest: Path, r: CopyResult): (f: Files)
    ensures r != Succeeded || src !in files ==> f == files
    ensures r == Succeeded && src in files ==> dest in f && f[dest] == files[src]
    ensures forall p :: p != dest ==> (p in f <==> p in files) && (p in files ==> f[p] == files[p])
  {
    if r == Succeeded && src in files then files[dest := files[src]] else files
  }

  /** The directories after `if not p.exists(): p.mkdir(parents=True, exist_ok=True)`. */
  function EnsureDir(files: Files, dirs: set<Path>, p: Path): (d: set<Path>)
    ensures dirs <= d && Exists(files, d, p)
    ensures forall q :: q in d && q !in dirs ==> q in Ancestors(p)
  {
    if Exists(files, dirs, p) then dirs else dirs + Ancestors(p)
  }

  /** The filesystem the engine reads and changes. */
  class FileSystem {
    var files: Files
    var dirs: set<Path>

    constructor (files: Files, dirs: set<Path>)
      ensures this.files == files && this.dirs == dirs
    {
      this.files := files;
      this.dirs := dirs;
    }

    /** `Path.exists()`. */
    predicate PathExists(p: Path)
      reads this
      ensures PathExists(p) <==> Exists(files, dirs, p)
    {
      Exists(files, dirs, p)
    }

    /** `p.mkdir(parents=True, exist_ok=True)`: `p` and all its missing ancestors become directories. */
    method MakeDirs(p: Path)
      modifies this`dirs
      ensures dirs == old(dirs) + Ancestors(p)
      ensures p in dirs && old(dirs) <= dirs
    {
      dirs := dirs + Ancestors(p);
    }

    /** `shutil.copy2(src, dest)`: copy the content and keep the source's modification time. */
    method Copy2(src: Path, dest: Path, faults: map<Path, Fault>) returns (r: CopyResult)
      modifies this`files
      ensures r == CopyOutcome(old(files), dirs, src, dest, faults)
      ensures files == AfterCopy(old(files), src, dest, r)
      ensures r == Succeeded ==> dest in files && files[dest] == old(files)[src]
    {
      r := CopyOutcome(files, dirs, src, dest, faults);
      if r == Succeeded {
        files := files[dest := files[src]];
      }
    }
  }
}
