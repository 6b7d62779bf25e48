/**
 * The filesystem as an abstract map from absolute paths to entries, and
 * the two writing calls the program makes, `mkdirSync` and
 * `writeFileSync` (bin/index.js lines 91, 164 and 166).  A call that
 * would throw yields `None` and leaves the map as it was.
 */
module Fs {
  import opened Wrappers
  import opened Paths

  datatype FsEntry = FileEntry(text: string) | DirEntry

  type FileMap = map<Path, FsEntry>

  predicate IsDir(fs: FileMap, p: Path)
  {
    p in fs && fs[p] == DirEntry
  }

  /** `mkdirSync(p)` (not recursive): EEXIST when `p` exists, ENOENT/ENOTDIR when its parent is no directory. */
  function AfterMkDir(fs: FileMap, p: Path): Option<FileMap>
  {
    if |p| == 0 || p in fs || !IsDir(fs, Parent(p)) then None
    else Some(fs[p := DirEntry])
  }

  /**
   * `writeFileSync(p, text)`: creates or truncates a regular file; EISDIR
   * when `p` is a directory, ENOENT/ENOTDIR when its parent is no directory.
   */
  function AfterWrite(fs: FileMap, p: Path, text: string): Option<FileMap>
  {
    if |p| == 0 || IsDir(fs, p) || !IsDir(fs, Parent(p)) then None
    else Some(fs[p := FileEntry(text)])
  }

  /** A writing call, with its path relative to a root directory. */
  datatype Op = MakeDir(path: Path) | Write(path: Path, text: string)

  function Apply(fs: FileMap, root: Path, op: Op): Option<FileMap>
  {
    match op
    case MakeDir(p) => AfterMkDir(fs, root + p)
    case Write(p, text) => AfterWrite(fs, root + p, text)
  }

  /** The filesystem after a run of calls, and whether all of them returned normally. */
  datatype Exec = Exec(fs: FileMap, ok: bool)

  /** Runs the calls in order; the first that throws ends the run and leaves the map as the calls before it made it. */
  function Execute(fs: FileMap, root: Path, ops: seq<Op>): Exec
    decreases ops
  {
    if ops == [] then Exec(fs, true)
    else
      match Apply(fs, root, ops[0])
      case None => Exec(fs, false)
      case Some(next) => Execute(next, root, ops[1..])
  }

  /** Running `a + b` is running `a`, then `b` only if `a` completed. */
  lemma {:induction false} ExecuteAppend(fs: FileMap, root: Path, a: seq<Op>, b: seq<Op>)
    ensures Execute(fs, root, a + b)
         == (var r := Execute(fs, root, a); if r.ok then Execute(r.fs, root, b) else r)
    decreases a
  {
    if a == [] {
      assert a + b == b;
    } else {
      assert (a + b)[0] == a[0];
      assert (a + b)[1..] == a[1..] + b;
      match Apply(fs, root, a[0])
      case None =>
      case Some(next) => ExecuteAppend(next, root, a[1..], b);
    }
  }

  /** No call removes or replaces a directory, so every directory survives a run. */
  lemma {:induction false} ExecuteKeepsDirs(fs: FileMap, root: Path, ops: seq<Op>, d: Path)
    requires IsDir(fs, d)
    ensures IsDir(Execute(fs, root, ops).fs, d)
    decreases ops
  {
    if ops != [] {
      match Apply(fs, root, ops[0])
      case None =>
      case Some(next) => ExecuteKeepsDirs(next, root, ops[1..], d);
    }
  }
}
