/**
 * `createDirectoryContents(templatePath, projectName)` (bin/index.js lines
 * 147-175) as the sequence of filesystem calls it makes, with paths
 * relative to CURR_DIR, and what that sequence does to the filesystem.
 *
 * The recursive call passes `join(projectName, file)` as the new
 * `projectName`, and that same variable is what `render` receives; so a
 * file in a subdirectory is rendered with its relative parent directory
 * ("app/src"), a file at the root with the plain project name ("app").
 */
module Copier {
  import opened Wrappers
  import opened Paths
  import opened Fs
  import opened Template

  /** Line 161: a regular file named `gitignore` is written as `.gitignore`; every other name is kept. */
  function TargetName(file: string): string
  {
    if file == "gitignore" then ".gitignore" else file
  }

  /**
   * The calls made for one entry of a template directory whose destination
   * is CURR_DIR + `projectName`: for a regular file one `writeFileSync` of
   * the rendered text, for a directory one `mkdirSync` followed by the
   * calls for its own listing, for anything else none.
   */
  function EntryOps(e: Entry, projectName: Path, render: (string, string) -> string): seq<Op>
    decreases e
  {
    match e.node
    case File(c) => [Write(projectName + [TargetName(e.name)], render(c, PathString(projectName)))]
    case Dir(children) => [MakeDir(projectName + [e.name])] + Ops(children, projectName + [e.name], render)
    case Other => []
  }

  /** The calls made for a whole listing, entry after entry in `readdirSync` order. */
  function Ops(es: seq<Entry>, projectName: Path, render: (string, string) -> string): seq<Op>
    decreases es
  {
    if es == [] then [] else EntryOps(es[0], projectName, render) + Ops(es[1..], projectName, render)
  }

  lemma {:induction false} OpsAppend(a: seq<Entry>, b: seq<Entry>, projectName: Path, render: (string, string) -> string)
    ensures Ops(a + b, projectName, render) == Ops(a, projectName, render) + Ops(b, projectName, render)
    decreases a
  {
    if a == [] {
      assert a + b == b;
    } else {
      assert (a + b)[0] == a[0];
      assert (a + b)[1..] == a[1..] + b;
      OpsAppend(a[1..], b, projectName, render);
    }
  }

  // ---------------------------------------------------------------------
  // One write per regular file, at the renamed path, with the rendered text

  /** The destination of a template file, relative to the project: the last component renamed. */
  function DestOf(p: Path): Path
  {
    if p == [] then [] else Parent(p) + [TargetName(Last(p))]
  }

  /** The directory of a template file, relative to the template root. */
  function DirOf(p: Path): Path
  {
    if p == [] then [] else Parent(p)
  }

  /** The write the copier owes one template file when the project is at `projectName`. */
  function ExpectedWrite(rec: FileRecord, projectName: Path, render: (string, string) -> string): Op
  {
    Write(projectName + DestOf(rec.path), render(rec.contents, PathString(projectName + DirOf(rec.path))))
  }

  function ExpectedWrites(fl: seq<FileRecord>, projectName: Path, render: (string, string) -> string): (r: seq<Op>)
    ensures |r| == |fl|
  {
    if fl == [] then [] else [ExpectedWrite(fl[0], projectName, render)] + ExpectedWrites(fl[1..], projectName, render)
  }

  lemma {:induction false} ExpectedWritesAt(fl: seq<FileRecord>, projectName: Path, render: (string, string) -> string, k: nat)
    requires k < |fl|
    ensures ExpectedWrites(fl, projectName, render)[k] == ExpectedWrite(fl[k], projectName, render)
  {
    if k > 0 {
      ExpectedWritesAt(fl[1..], projectName, render, k - 1);
    }
  }

  lemma {:induction false} ExpectedWritesAppend(a: seq<FileRecord>, b: seq<FileRecord>, projectName: Path, render: (string, string) -> string)
    ensures ExpectedWrites(a + b, projectName, render) == ExpectedWrites(a, projectName, render) + ExpectedWrites(b, projectName, render)
  {
    if a == [] {
      assert a + b == b;
    } else {
      assert (a + b)[0] == a[0];
      assert (a + b)[1..] == a[1..] + b;
      ExpectedWritesAppend(a[1..], b, projectName, render);
    }
  }

  /** Moving one directory name from a file's path onto the project path leaves its destination and directory alone. */
  lemma WithinPaths(name: string, p: Path, projectName: Path)
    requires |p| > 0
    ensures projectName + DestOf([name] + p) == projectName + [name] + DestOf(p)
    ensures projectName + DirOf([name] + p) == projectName + [name] + DirOf(p)
  {
    assert Parent([name] + p) == [name] + Parent(p);
    assert Last([name] + p) == Last(p);
  }

  /** A file listed one directory down is owed the same write as from inside that directory. */
  lemma {:induction false} ExpectedWritesWithin(name: string, fl: seq<FileRecord>, projectName: Path, render: (string, string) -> string)
    requires forall k :: 0 <= k < |fl| ==> |fl[k].path| > 0
    ensures ExpectedWrites(Within(name, fl), projectName, render) == ExpectedWrites(fl, projectName + [name], render)
  {
    if fl != [] {
      ExpectedWritesWithin(name, fl[1..], projectName, render);
      var p := fl[0].path;
      var rec := FileRecord([name] + p, fl[0].contents);
      var w := Within(name, fl);
      assert w == [rec] + Within(name, fl[1..]);
      assert w[0] == rec && w[1..] == Within(name, fl[1..]);
      WithinPaths(name, p, projectName);
      assert ExpectedWrite(rec, projectName, render) == ExpectedWrite(fl[0], projectName + [name], render);
    }
  }

  /** The file writes among a run of calls, in order. */
  function Writes(ops: seq<Op>): seq<Op>
  {
    if ops == [] then [] else (if ops[0].Write? then [ops[0]] else []) + Writes(ops[1..])
  }

  lemma {:induction false} WritesAppend(a: seq<Op>, b: seq<Op>)
    ensures Writes(a + b) == Writes(a) + Writes(b)
  {
    if a == [] {
      assert a + b == b;
    } else {
      assert (a + b)[0] == a[0];
      assert (a + b)[1..] == a[1..] + b;
      WritesAppend(a[1..], b);
    }
  }

  lemma {:induction false} EntryWritesFollowFiles(e: Entry, projectName: Path, render: (string, string) -> string)
    ensures Writes(EntryOps(e, projectName, render)) == ExpectedWrites(EntryFiles(e), projectName, render)
    decreases e
  {
    match e.node
    case File(c) =>
      assert DestOf([e.name]) == [TargetName(e.name)];
      assert DirOf([e.name]) == [];
      assert projectName + [] == projectName;
      var w := Write(projectName + [TargetName(e.name)], render(c, PathString(projectName)));
      assert Writes([w]) == [w] + Writes([]);
      assert ExpectedWrites([FileRecord([e.name], c)], projectName, render)
          == [ExpectedWrite(FileRecord([e.name], c), projectName, render)] + ExpectedWrites([], projectName, render);
    case Dir(children) =>
      var dir := projectName + [e.name];
      var sub := Ops(children, dir, render);
      WritesAppend([MakeDir(dir)], sub);
      assert Writes([MakeDir(dir)]) == [] + Writes([]);
      WritesFollowFiles(children, dir, render);
      forall k | 0 <= k < |FileList(children)| ensures |FileList(children)[k].path| > 0 {
        FileListPaths(children, FileList(children)[k]);
      }
      ExpectedWritesWithin(e.name, FileList(children), projectName, render);
    case Other =>
  }

  /**
   * Exactly one `writeFileSync` per regular file of the template, in walk
   * order: file `p` goes to `projectName + DestOf(p)` (its last component
   * renamed by `TargetName`) with its contents rendered for `projectName`
   * joined with the file's directory.
   */
  lemma {:induction false} WritesFollowFiles(es: seq<Entry>, projectName: Path, render: (string, string) -> string)
    ensures Writes(Ops(es, projectName, render)) == ExpectedWrites(FileList(es), projectName, render)
    decreases es
  {
    if es != [] {
      WritesFollowFiles(es[1..], projectName, render);
      EntryWritesFollowFiles(es[0], projectName, render);
      WritesAppend(EntryOps(es[0], projectName, render), Ops(es[1..], projectName, render));
      ExpectedWritesAppend(EntryFiles(es[0]), FileList(es[1..]), projectName, render);
    }
  }

  /**
   * For every regular file of the template at path `p` there is a write
   * to its destination with its rendered contents.
   */
  lemma WriteForEveryFile(es: seq<Entry>, projectName: Path, render: (string, string) -> string, p: Path, c: string)
    requires WellFormed(es)
    requires Lookup(es, p) == Some(File(c))
    ensures Write(projectName + DestOf(p), render(c, PathString(projectName + DirOf(p)))) in Writes(Ops(es, projectName, render))
  {
    FileListExact(es, p, c);
    WritesFollowFiles(es, projectName, render);
    var fl := FileList(es);
    var k :| 0 <= k < |fl| && fl[k] == FileRecord(p, c);
    ExpectedWritesAt(fl, projectName, render, k);
  }

  /** No two records of a file list have the same destination. */
  predicate DestsDistinct(fl: seq<FileRecord>)
  {
    forall i, j :: 0 <= i < j < |fl| ==> DestOf(fl[i].path) != DestOf(fl[j].path)
  }

  /** A file's destination starts with the destination name of the root entry it lies under. */
  lemma EntryDestHead(e: Entry, rec: FileRecord)
    requires rec in EntryFiles(e)
    ensures |DestOf(rec.path)| > 0 && DestOf(rec.path)[0] == TargetOf(e)
  {
    match e.node
    case File(c) =>
      assert rec.path == [e.name];
      assert DestOf(rec.path) == [TargetName(e.name)];
    case Dir(children) =>
      WithinMember(e.name, FileList(children), rec);
      FileListPaths(children, FileRecord(rec.path[1..], rec.contents));
      WithinPaths(e.name, rec.path[1..], []);
      assert rec.path == [e.name] + rec.path[1..];
      assert [] + DestOf(rec.path) == [] + [e.name] + DestOf(rec.path[1..]);
    case Other =>
  }

  lemma FileListDestHeads(es: seq<Entry>, rec: FileRecord)
    requires rec in FileList(es)
    ensures |DestOf(rec.path)| > 0 && DestOf(rec.path)[0] in TopNames(es)
    decreases es
  {
    assert FileList(es) == EntryFiles(es[0]) + FileList(es[1..]);
    if rec in EntryFiles(es[0]) {
      EntryDestHead(es[0], rec);
      assert !es[0].node.Other?;
    } else {
      FileListDestHeads(es[1..], rec);
      var x := DestOf(rec.path)[0];
      var i :| 0 <= i < |es[1..]| && !es[1..][i].node.Other? && TargetOf(es[1..][i]) == x;
      assert es[i + 1] == es[1..][i];
    }
  }

  /** The destination of the k-th file one directory down gains that directory's name in front. */
  lemma WithinDestAt(name: string, fl: seq<FileRecord>, k: nat)
    requires k < |fl| && |fl[k].path| > 0
    ensures k < |Within(name, fl)|
    ensures DestOf(Within(name, fl)[k].path) == [name] + DestOf(fl[k].path)
  {
    WithinAt(name, fl, k);
    WithinPaths(name, fl[k].path, []);
  }

  lemma WithinDestsDistinct(name: string, fl: seq<FileRecord>)
    requires DestsDistinct(fl) && forall k :: 0 <= k < |fl| ==> |fl[k].path| > 0
    ensures DestsDistinct(Within(name, fl))
  {
    var w := Within(name, fl);
    forall i, j | 0 <= i < j < |w| ensures DestOf(w[i].path) != DestOf(w[j].path) {
      WithinDestAt(name, fl, i);
      WithinDestAt(name, fl, j);
      assert ([name] + DestOf(fl[i].path))[1..] == DestOf(fl[i].path);
      assert ([name] + DestOf(fl[j].path))[1..] == DestOf(fl[j].path);
    }
  }

  lemma DestsDistinctAppend(a: seq<FileRecord>, b: seq<FileRecord>)
    requires DestsDistinct(a) && DestsDistinct(b)
    requires forall r, t :: r in a && t in b ==> DestOf(r.path) != DestOf(t.path)
    ensures DestsDistinct(a + b)
  {
    var s := a + b;
    forall i, j | 0 <= i < j < |s| ensures DestOf(s[i].path) != DestOf(s[j].path) {
      if i < |a| && |a| <= j {
        assert s[i] in a && s[j] == b[j - |a|];
      } else if |a| <= i {
        assert s[i] == b[i - |a|] && s[j] == b[j - |a|];
      }
    }
  }

  /** In a clash-free template no two regular files share a destination, renaming included. */
  lemma {:induction false} FileDestsDistinct(es: seq<Entry>)
    requires WellFormed(es) && NoIgnoreClash(es)
    ensures DestsDistinct(FileList(es))
    decreases es
  {
    if es != [] {
      var e := es[0];
      WellFormedTail(es);
      NoIgnoreClashTail(es);
      FirstTargetUnique(es);
      FileDestsDistinct(es[1..]);
      if e.node.Dir? {
        var fl := FileList(e.node.entries);
        FileDestsDistinct(e.node.entries);
        forall k | 0 <= k < |fl| ensures |fl[k].path| > 0 {
          FileListPaths(e.node.entries, fl[k]);
        }
        WithinDestsDistinct(e.name, fl);
      }
      forall r, t | r in EntryFiles(e) && t in FileList(es[1..]) ensures DestOf(r.path) != DestOf(t.path) {
        EntryDestHead(e, r);
        FileListDestHeads(es[1..], t);
      }
      DestsDistinctAppend(EntryFiles(e), FileList(es[1..]));
    }
  }

  /**
   * Every regular file is written exactly once: the writes follow the
   * file list, which lists no file twice; and in a clash-free template no
   * two writes go to the same destination.
   */
  lemma FilesWrittenOnce(es: seq<Entry>, projectName: Path, render: (string, string) -> string)
    requires WellFormed(es)
    ensures |Writes(Ops(es, projectName, render))| == |FileList(es)|
    ensures PathsDistinct(FileList(es))
    ensures NoIgnoreClash(es) ==>
      var ws := Writes(Ops(es, projectName, render));
      forall i, j :: 0 <= i < j < |ws| ==> ws[i].path != ws[j].path
  {
    WritesFollowFiles(es, projectName, render);
    FileListDistinct(es);
    if NoIgnoreClash(es) {
      FileDestsDistinct(es);
      var ws := Writes(Ops(es, projectName, render));
      var fl := FileList(es);
      forall i, j | 0 <= i < j < |ws| ensures ws[i].path != ws[j].path {
        ExpectedWritesAt(fl, projectName, render, i);
        ExpectedWritesAt(fl, projectName, render, j);
        assert (projectName + DestOf(fl[i].path))[|projectName|..] == DestOf(fl[i].path);
        assert (projectName + DestOf(fl[j].path))[|projectName|..] == DestOf(fl[j].path);
      }
    }
  }

  // ---------------------------------------------------------------------
  // One mkdir per directory, at the same relative path

  /** The `mkdirSync` calls among a run of calls, in order. */
  function MakeDirs(ops: seq<Op>): seq<Op>
  {
    if ops == [] then [] else (if ops[0].MakeDir? then [ops[0]] else []) + MakeDirs(ops[1..])
  }

  /** The `mkdirSync` calls owed a list of template directories when the project is at `projectName`. */
  function ExpectedDirs(ds: seq<Path>, projectName: Path): (r: seq<Op>)
    ensures |r| == |ds|
  {
    if ds == [] then [] else [MakeDir(projectName + ds[0])] + ExpectedDirs(ds[1..], projectName)
  }

  lemma {:induction false} ExpectedDirsAt(ds: seq<Path>, projectName: Path, k: nat)
    requires k < |ds|
    ensures ExpectedDirs(ds, projectName)[k] == MakeDir(projectName + ds[k])
  {
    if k > 0 {
      ExpectedDirsAt(ds[1..], projectName, k - 1);
    }
  }

  lemma {:induction false} ExpectedDirsAppend(a: seq<Path>, b: seq<Path>, projectName: Path)
    ensures ExpectedDirs(a + b, projectName) == ExpectedDirs(a, projectName) + ExpectedDirs(b, projectName)
  {
    if a == [] {
      assert a + b == b;
    } else {
      assert (a + b)[0] == a[0];
      assert (a + b)[1..] == a[1..] + b;
      ExpectedDirsAppend(a[1..], b, projectName);
    }
  }

  /** A directory listed one level down is owed the same call as from inside that directory. */
  lemma {:induction false} ExpectedDirsUnder(name: string, ds: seq<Path>, projectName: Path)
    ensures ExpectedDirs(Under(name, ds), projectName) == ExpectedDirs(ds, projectName + [name])
  {
    if ds != [] {
      ExpectedDirsUnder(name, ds[1..], projectName);
      var u := Under(name, ds);
      assert u[0] == [name] + ds[0] && u[1..] == Under(name, ds[1..]);
      assert projectName + ([name] + ds[0]) == projectName + [name] + ds[0];
    }
  }

  lemma {:induction false} MakeDirsAppend(a: seq<Op>, b: seq<Op>)
    ensures MakeDirs(a + b) == MakeDirs(a) + MakeDirs(b)
  {
    if a == [] {
      assert a + b == b;
    } else {
      assert (a + b)[0] == a[0];
      assert (a + b)[1..] == a[1..] + b;
      MakeDirsAppend(a[1..], b);
    }
  }

  lemma {:induction false} EntryMakeDirsFollowDirs(e: Entry, projectName: Path, render: (string, string) -> string)
    ensures MakeDirs(EntryOps(e, projectName, render)) == ExpectedDirs(EntryDirs(e), projectName)
    decreases e
  {
    match e.node
    case File(c) =>
      var w := Write(projectName + [TargetName(e.name)], render(c, PathString(projectName)));
      assert MakeDirs([w]) == [] + MakeDirs([]);
    case Dir(children) =>
      var dir := projectName + [e.name];
      var sub := Ops(children, dir, render);
      MakeDirsAppend([MakeDir(dir)], sub);
      assert MakeDirs([MakeDir(dir)]) == [MakeDir(dir)] + MakeDirs([]);
      MakeDirsFollowDirs(children, dir, render);
      ExpectedDirsUnder(e.name, DirList(children), projectName);
      ExpectedDirsAppend([[e.name]], Under(e.name, DirList(children)), projectName);
      assert ExpectedDirs([[e.name]], projectName) == [MakeDir(dir)] + ExpectedDirs([], projectName);
    case Other =>
  }

  /**
   * Exactly one `mkdirSync` per directory of the template, in walk order:
   * directory `q` is created at `projectName + q`, its name kept as it is.
   */
  lemma {:induction false} MakeDirsFollowDirs(es: seq<Entry>, projectName: Path, render: (string, string) -> string)
    ensures MakeDirs(Ops(es, projectName, render)) == ExpectedDirs(DirList(es), projectName)
    decreases es
  {
    if es != [] {
      MakeDirsFollowDirs(es[1..], projectName, render);
      EntryMakeDirsFollowDirs(es[0], projectName, render);
      MakeDirsAppend(EntryOps(es[0], projectName, render), Ops(es[1..], projectName, render));
      ExpectedDirsAppend(EntryDirs(es[0]), DirList(es[1..]), projectName);
    }
  }

  /**
   * The copier creates `projectName + q` if and only if the template has a
   * directory at `q`, and creates no directory twice.
   */
  lemma DirectoriesMatchTemplate(es: seq<Entry>, projectName: Path, render: (string, string) -> string, q: Path)
    requires WellFormed(es)
    ensures MakeDir(projectName + q) in MakeDirs(Ops(es, projectName, render)) <==> DirAt(es, q)
    ensures NoDuplicates(MakeDirs(Ops(es, projectName, render)))
  {
    MakeDirsFollowDirs(es, projectName, render);
    DirListExact(es, q);
    DirListDistinct(es);
    var ds := DirList(es);
    var m := MakeDirs(Ops(es, projectName, render));
    if MakeDir(projectName + q) in m {
      var k :| 0 <= k < |m| && m[k] == MakeDir(projectName + q);
      ExpectedDirsAt(ds, projectName, k);
      assert (projectName + ds[k])[|projectName|..] == ds[k];
      assert (projectName + q)[|projectName|..] == q;
    }
    if q in ds {
      var k :| 0 <= k < |ds| && ds[k] == q;
      ExpectedDirsAt(ds, projectName, k);
    }
    forall i, j | 0 <= i < j < |m| ensures m[i] != m[j] {
      ExpectedDirsAt(ds, projectName, i);
      ExpectedDirsAt(ds, projectName, j);
      assert (projectName + ds[i])[|projectName|..] == ds[i];
      assert (projectName + ds[j])[|projectName|..] == ds[j];
    }
  }

  // ---------------------------------------------------------------------
  // Every directory is created before anything inside it

  /**
   * Each call works strictly inside `projectName`, and its parent is
   * either `projectName` itself or a directory an earlier call created.
   */
  predicate ParentsFirst(ops: seq<Op>, projectName: Path)
  {
    forall j :: 0 <= j < |ops| ==>
      StrictlyUnder(ops[j].path, projectName)
      && (Parent(ops[j].path) == projectName || MakeDir(Parent(ops[j].path)) in ops[..j])
  }

  lemma ParentsFirstAppend(a: seq<Op>, b: seq<Op>, projectName: Path)
    requires ParentsFirst(a, projectName) && ParentsFirst(b, projectName)
    ensures ParentsFirst(a + b, projectName)
  {
    var ops := a + b;
    forall j | |a| <= j < |ops| && Parent(ops[j].path) != projectName
      ensures MakeDir(Parent(ops[j].path)) in ops[..j]
    {
      var x := MakeDir(Parent(ops[j].path));
      assert ops[j] == b[j - |a|];
      var i :| 0 <= i < j - |a| && b[i] == x;
      assert ops[|a| + i] == x;
    }
    forall j | 0 <= j < |a| ensures ops[..j] == a[..j] {
    }
  }

  /** A `mkdirSync` of a child of `projectName`, then calls that stay under that child, keep parents first. */
  lemma ParentsFirstNested(dir: Path, sub: seq<Op>, projectName: Path)
    requires |dir| > 0 && Parent(dir) == projectName
    requires ParentsFirst(sub, dir)
    ensures ParentsFirst([MakeDir(dir)] + sub, projectName)
  {
    var ops := [MakeDir(dir)] + sub;
    forall j | 1 <= j < |ops|
      ensures StrictlyUnder(ops[j].path, projectName)
      ensures Parent(ops[j].path) == projectName || MakeDir(Parent(ops[j].path)) in ops[..j]
    {
      assert ops[j] == sub[j - 1];
      var path := sub[j - 1].path;
      assert path[..|projectName|] == path[..|dir|][..|projectName|];
      if Parent(path) == dir {
        assert ops[0] == MakeDir(dir);
      } else {
        var x := MakeDir(Parent(path));
        var i :| 0 <= i < j - 1 && sub[i] == x;
        assert ops[1 + i] == x;
      }
    }
  }

  lemma {:induction false} EntryParentsFirst(e: Entry, projectName: Path, render: (string, string) -> string)
    ensures ParentsFirst(EntryOps(e, projectName, render), projectName)
    decreases e
  {
    match e.node
    case File(c) =>
      assert Parent(projectName + [TargetName(e.name)]) == projectName;
    case Dir(children) =>
      var dir := projectName + [e.name];
      OpsParentsFirst(children, dir, render);
      assert Parent(dir) == projectName;
      ParentsFirstNested(dir, Ops(children, dir, render), projectName);
    case Other =>
  }

  /** Every `writeFileSync` and `mkdirSync` finds its parent directory already made. */
  lemma {:induction false} OpsParentsFirst(es: seq<Entry>, projectName: Path, render: (string, string) -> string)
    ensures ParentsFirst(Ops(es, projectName, render), projectName)
    decreases es
  {
    if es != [] {
      OpsParentsFirst(es[1..], projectName, render);
      EntryParentsFirst(es[0], projectName, render);
      ParentsFirstAppend(EntryOps(es[0], projectName, render), Ops(es[1..], projectName, render), projectName);
    }
  }

  // ---------------------------------------------------------------------
  // The destination mirrors the template

  /** The destination name of an entry: renamed if it is a regular file. */
  function TargetOf(e: Entry): string
  {
    if e.node.File? then TargetName(e.name) else e.name
  }

  /** The names the copier creates directly in the destination directory. */
  function TopNames(es: seq<Entry>): set<string>
  {
    set i | 0 <= i < |es| && !es[i].node.Other? :: TargetOf(es[i])
  }

  /**
   * No directory of the template holds a regular file `gitignore` beside
   * an entry `.gitignore`: the one way two entries reach the same
   * destination.
   */
  predicate NoIgnoreClash(es: seq<Entry>)
    decreases es
  {
    && (forall i, j :: 0 <= i < |es| && 0 <= j < |es| && es[i].name == "gitignore" && es[i].node.File? ==> es[j].name != ".gitignore")
    && forall i :: 0 <= i < |es| ==> (es[i].node.Dir? ==> NoIgnoreClash(es[i].node.entries))
  }

  /** What the copy of one entry leaves behind under `root + projectName`. */
  function EntryMirror(e: Entry, root: Path, projectName: Path, render: (string, string) -> string): map<Path, FsEntry>
    decreases e
  {
    match e.node
    case File(c) => map[root + projectName + [TargetName(e.name)] := FileEntry(render(c, PathString(projectName)))]
    case Dir(children) => map[root + projectName + [e.name] := DirEntry] + Mirror(children, root, projectName + [e.name], render)
    case Other => map[]
  }

  /** The entries the copier leaves behind under `root + projectName`. */
  function Mirror(es: seq<Entry>, root: Path, projectName: Path, render: (string, string) -> string): map<Path, FsEntry>
    decreases es
  {
    if es == [] then map[] else EntryMirror(es[0], root, projectName, render) + Mirror(es[1..], root, projectName, render)
  }

  /** Every mirrored path lies strictly under the destination, below one of its top names. */
  lemma {:induction false} MirrorKeys(es: seq<Entry>, root: Path, projectName: Path, render: (string, string) -> string, k: Path)
    requires k in Mirror(es, root, projectName, render)
    ensures StrictlyUnder(k, root + projectName) && k[|root + projectName|] in TopNames(es)
    decreases es
  {
    var d := root + projectName;
    var e := es[0];
    if k in Mirror(es[1..], root, projectName, render) {
      MirrorKeys(es[1..], root, projectName, render, k);
      var i :| 0 <= i < |es[1..]| && !es[1..][i].node.Other? && TargetOf(es[1..][i]) == k[|d|];
      assert es[i + 1] == es[1..][i];
    } else {
      assert k in EntryMirror(e, root, projectName, render);
      assert TargetOf(es[0]) in TopNames(es) || e.node.Other?;
      match e.node
      case File(c) =>
        assert k == d + [TargetName(e.name)];
      case Dir(children) =>
        if k != d + [e.name] {
          MirrorKeys(children, root, projectName + [e.name], render, k);
          assert root + (projectName + [e.name]) == d + [e.name];
          assert k[..|d|] == k[..|d| + 1][..|d|];
        }
      case Other =>
    }
  }

  /** Nothing in `fs` sits where the entries `es` are to be created under the directory `d`. */
  predicate Room(fs: FileMap, d: Path, es: seq<Entry>)
  {
    && IsDir(fs, d)
    && forall k :: k in fs && StrictlyUnder(k, d) ==> k[|d|] !in TopNames(es)
  }

  lemma NoIgnoreClashTail(es: seq<Entry>)
    requires |es| > 0 && NoIgnoreClash(es)
    ensures NoIgnoreClash(es[1..])
    ensures es[0].node.Dir? ==> NoIgnoreClash(es[0].node.entries)
  {
    assert forall i :: 0 <= i < |es| - 1 ==> es[1..][i] == es[i + 1];
  }

  /** In a well-formed, clash-free listing the first entry's destination name is not reused by the rest. */
  lemma FirstTargetUnique(es: seq<Entry>)
    requires |es| > 0 && WellFormed(es) && NoIgnoreClash(es)
    ensures TopNames(es[1..]) <= TopNames(es)
    ensures !es[0].node.Other? ==> TargetOf(es[0]) in TopNames(es) && TargetOf(es[0]) !in TopNames(es[1..])
  {
    var tail := es[1..];
    forall x | x in TopNames(tail) ensures x in TopNames(es) {
      var i :| 0 <= i < |tail| && !tail[i].node.Other? && TargetOf(tail[i]) == x;
      assert es[i + 1] == tail[i];
    }
  }

  /** Writing the first entry, a regular file, succeeds and leaves room for the rest. */
  lemma RoomAfterFile(fs: FileMap, d: Path, es: seq<Entry>, txt: string)
    requires |es| > 0 && es[0].node.File? && WellFormed(es) && NoIgnoreClash(es)
    requires Room(fs, d, es)
    ensures AfterWrite(fs, d + [TargetName(es[0].name)], txt) == Some(fs[d + [TargetName(es[0].name)] := FileEntry(txt)])
    ensures Room(fs[d + [TargetName(es[0].name)] := FileEntry(txt)], d, es[1..])
  {
    FirstTargetUnique(es);
    var p := d + [TargetName(es[0].name)];
    assert StrictlyUnder(p, d) && p[|d|] == TargetOf(es[0]);
    assert Parent(p) == d;
  }

  /** Creating the first entry, a directory, succeeds and leaves room for its own entries. */
  lemma RoomAfterMkDir(fs: FileMap, d: Path, es: seq<Entry>)
    requires |es| > 0 && es[0].node.Dir? && WellFormed(es) && NoIgnoreClash(es)
    requires Room(fs, d, es)
    ensures AfterMkDir(fs, d + [es[0].name]) == Some(fs[d + [es[0].name] := DirEntry])
    ensures Room(fs[d + [es[0].name] := DirEntry], d + [es[0].name], es[0].node.entries)
  {
    FirstTargetUnique(es);
    var p := d + [es[0].name];
    assert StrictlyUnder(p, d) && p[|d|] == TargetOf(es[0]);
    assert Parent(p) == d;
    forall k | StrictlyUnder(k, p)
      ensures StrictlyUnder(k, d) && k[|d|] == es[0].name
    {
      UnderChild(k, d, es[0].name);
    }
  }

  lemma UnderChild(k: Path, d: Path, name: string)
    requires StrictlyUnder(k, d + [name])
    ensures StrictlyUnder(k, d) && k[|d|] == name
  {
    assert k[..|d|] == k[..|d| + 1][..|d|];
  }

  /** After the first entry, a directory, is copied in full, there is room for the rest. */
  lemma RoomAfterSubtree(fs: FileMap, root: Path, projectName: Path, es: seq<Entry>, render: (string, string) -> string)
    requires |es| > 0 && es[0].node.Dir? && WellFormed(es) && NoIgnoreClash(es)
    requires Room(fs, root + projectName, es)
    ensures Room(fs[root + projectName + [es[0].name] := DirEntry]
                   + Mirror(es[0].node.entries, root, projectName + [es[0].name], render), root + projectName, es[1..])
  {
    FirstTargetUnique(es);
    var d := root + projectName;
    var dir := projectName + [es[0].name];
    var mirrorSub := Mirror(es[0].node.entries, root, dir, render);
    var fs2 := fs[d + [es[0].name] := DirEntry] + mirrorSub;
    forall k | k in mirrorSub ensures StrictlyUnder(k, d) && k[|d|] == es[0].name {
      MirrorKeys(es[0].node.entries, root, dir, render, k);
      assert root + dir == d + [es[0].name];
      assert k[..|d|] == k[..|d| + 1][..|d|];
    }
    assert IsDir(fs2, d);
  }

  lemma RoomTail(fs: FileMap, d: Path, es: seq<Entry>)
    requires |es| > 0 && WellFormed(es) && NoIgnoreClash(es)
    requires Room(fs, d, es)
    ensures Room(fs, d, es[1..])
  {
    FirstTargetUnique(es);
  }

  /** The copy of a file entry, given room for it, writes exactly its mirror. */
  lemma CopyFileEntry(fs: FileMap, root: Path, projectName: Path, es: seq<Entry>, render: (string, string) -> string)
    requires |es| > 0 && es[0].node.File? && WellFormed(es) && NoIgnoreClash(es)
    requires Room(fs, root + projectName, es)
    ensures Execute(fs, root, EntryOps(es[0], projectName, render))
         == Exec(fs + EntryMirror(es[0], root, projectName, render), true)
    ensures Room(fs + EntryMirror(es[0], root, projectName, render), root + projectName, es[1..])
  {
    var e := es[0];
    var d := root + projectName;
    var p := projectName + [TargetName(e.name)];
    var txt := render(e.node.contents, PathString(projectName));
    assert root + p == d + [TargetName(e.name)];
    RoomAfterFile(fs, d, es, txt);
    assert fs + EntryMirror(e, root, projectName, render) == fs[d + [TargetName(e.name)] := FileEntry(txt)];
  }

  /** The copy of a directory entry, given room for it, creates exactly its mirror. */
  lemma {:induction false} CopyDirEntry(fs: FileMap, root: Path, projectName: Path, es: seq<Entry>, render: (string, string) -> string)
    requires |es| > 0 && es[0].node.Dir? && WellFormed(es) && NoIgnoreClash(es)
    requires Room(fs, root + projectName, es)
    ensures Execute(fs, root, EntryOps(es[0], projectName, render))
         == Exec(fs + EntryMirror(es[0], root, projectName, render), true)
    ensures Room(fs + EntryMirror(es[0], root, projectName, render), root + projectName, es[1..])
    decreases es, 0
  {
    var e := es[0];
    var d := root + projectName;
    var dir := projectName + [e.name];
    var children := e.node.entries;
    WellFormedTail(es);
    NoIgnoreClashTail(es);
    assert root + dir == d + [e.name];
    ExecuteAppend(fs, root, [MakeDir(dir)], Ops(children, dir, render));
    RoomAfterMkDir(fs, d, es);
    var fs1 := fs[d + [e.name] := DirEntry];
    assert Execute(fs, root, [MakeDir(dir)]) == Exec(fs1, true);
    CopyBuildsMirror(fs1, root, dir, children, render);
    RoomAfterSubtree(fs, root, projectName, es, render);
    assert EntryMirror(e, root, projectName, render) == map[d + [e.name] := DirEntry] + Mirror(children, root, dir, render);
    UpdateThenUnion(fs, d + [e.name], DirEntry, Mirror(children, root, dir, render));
  }

  lemma UpdateThenUnion<K, V>(a: map<K, V>, k: K, v: V, b: map<K, V>)
    ensures a[k := v] + b == a + (map[k := v] + b)
  {
  }

  /**
   * With room at the destination, the copy of a well-formed, clash-free
   * template completes, and what it adds is exactly the mirror of the
   * template: every directory, and every regular file renamed and rendered.
   */
  lemma {:induction false} CopyBuildsMirror(fs: FileMap, root: Path, projectName: Path, es: seq<Entry>, render: (string, string) -> string)
    requires WellFormed(es) && NoIgnoreClash(es)
    requires Room(fs, root + projectName, es)
    ensures Execute(fs, root, Ops(es, projectName, render)) == Exec(fs + Mirror(es, root, projectName, render), true)
    decreases es, 1
  {
    if es == [] {
      assert fs + map[] == fs;
    } else {
      var e := es[0];
      var head := EntryMirror(e, root, projectName, render);
      var tail := Mirror(es[1..], root, projectName, render);
      WellFormedTail(es);
      NoIgnoreClashTail(es);
      if e.node.File? {
        CopyFileEntry(fs, root, projectName, es, render);
      } else if e.node.Dir? {
        CopyDirEntry(fs, root, projectName, es, render);
      } else {
        RoomTail(fs, root + projectName, es);
        assert fs + head == fs;
      }
      ExecuteAppend(fs, root, EntryOps(e, projectName, render), Ops(es[1..], projectName, render));
      assert Execute(fs, root, Ops(es, projectName, render)) == Execute(fs + head, root, Ops(es[1..], projectName, render));
      CopyBuildsMirror(fs + head, root, projectName, es[1..], render);
      UnionAssociates(fs, head, tail);
    }
  }

  /**
   * Where the clash does happen, `readdirSync` lists `.gitignore` before
   * `gitignore` (names come in byte order, and `.` sorts before `g`).  A
   * `.gitignore` file is then overwritten by the renamed `gitignore`, so
   * only the latter's text survives, ...
   */
  lemma IgnoreClashOverwrites(fs: FileMap, root: Path, projectName: Path, render: (string, string) -> string, a: string, b: string)
    requires IsDir(fs, root + projectName) && root + projectName + [".gitignore"] !in fs
    ensures var es := [Entry(".gitignore", File(b)), Entry("gitignore", File(a))];
      Execute(fs, root, Ops(es, projectName, render))
        == Exec(fs[root + projectName + [".gitignore"] := FileEntry(render(a, PathString(projectName)))], true)
  {
    var es := [Entry(".gitignore", File(b)), Entry("gitignore", File(a))];
    var dest := projectName + [".gitignore"];
    assert Ops([Entry("gitignore", File(a))], projectName, render) == [Write(dest, render(a, PathString(projectName)))];
    assert Ops(es, projectName, render) == [Write(dest, render(b, PathString(projectName))), Write(dest, render(a, PathString(projectName)))];
    var p := root + dest;
    assert p == root + projectName + [".gitignore"];
    assert Parent(p) == root + projectName;
    var ops := Ops(es, projectName, render);
    var f1 := fs[p := FileEntry(render(b, PathString(projectName)))];
    var f2 := fs[p := FileEntry(render(a, PathString(projectName)))];
    assert Apply(fs, root, ops[0]) == Some(f1);
    assert root + projectName != p by { assert |root + projectName| < |p|; }
    assert IsDir(f1, root + projectName);
    assert f1[p := FileEntry(render(a, PathString(projectName)))] == f2;
    assert Apply(f1, root, ops[1]) == Some(f2);
    assert Execute(f2, root, ops[2..]) == Exec(f2, true);
  }

  /**
   * ... while a `.gitignore` directory is copied in full, after which
   * writing the renamed `gitignore` onto it throws (EISDIR).
   */
  lemma IgnoreClashStops(fs: FileMap, root: Path, projectName: Path, render: (string, string) -> string, a: string, children: seq<Entry>)
    requires WellFormed(children) && NoIgnoreClash(children)
    requires Room(fs, root + projectName, [Entry(".gitignore", Dir(children))])
    ensures var es := [Entry(".gitignore", Dir(children)), Entry("gitignore", File(a))];
      Execute(fs, root, Ops(es, projectName, render))
        == Exec(fs + Mirror([Entry(".gitignore", Dir(children))], root, projectName, render), false)
  {
    var first := [Entry(".gitignore", Dir(children))];
    var second := [Entry("gitignore", File(a))];
    var es := first + second;
    assert es == [Entry(".gitignore", Dir(children)), Entry("gitignore", File(a))];
    OpsAppend(first, second, projectName, render);
    assert WellFormed(first);
    assert NoIgnoreClash(first);
    CopyBuildsMirror(fs, root, projectName, first, render);
    ExecuteAppend(fs, root, Ops(first, projectName, render), Ops(second, projectName, render));
    var fs1 := fs + Mirror(first, root, projectName, render);
    var dest := projectName + [".gitignore"];
    assert Ops(second, projectName, render) == [Write(dest, render(a, PathString(projectName)))];
    var sub := Mirror(children, root, dest, render);
    assert first[1..] == [];
    assert root + projectName + [".gitignore"] == root + dest;
    assert EntryMirror(first[0], root, projectName, render) == map[root + dest := DirEntry] + sub;
    assert Mirror(first, root, projectName, render) == map[root + dest := DirEntry] + sub + map[];
    if root + dest in sub {
      MirrorKeys(children, root, dest, render, root + dest);
    }
    assert IsDir(fs1, root + dest);
  }

  /** A path below the first entry's destination name is not made by the rest of the listing. */
  lemma MirrorTailMisses(es: seq<Entry>, root: Path, projectName: Path, render: (string, string) -> string, k: Path)
    requires |es| > 0 && !es[0].node.Other? && WellFormed(es) && NoIgnoreClash(es)
    requires StrictlyUnder(k, root + projectName) && k[|root + projectName|] == TargetOf(es[0])
    ensures k !in Mirror(es[1..], root, projectName, render)
  {
    FirstTargetUnique(es);
    if k in Mirror(es[1..], root, projectName, render) {
      MirrorKeys(es[1..], root, projectName, render, k);
    }
  }

  /** Every directory `q` of a clash-free template is a directory at `root + projectName + q` in the mirror. */
  lemma {:induction false} MirrorHasDirs(es: seq<Entry>, root: Path, projectName: Path, render: (string, string) -> string, q: Path)
    requires WellFormed(es) && NoIgnoreClash(es) && DirAt(es, q)
    ensures var m := Mirror(es, root, projectName, render);
      root + projectName + q in m && m[root + projectName + q] == DirEntry
    decreases es
  {
    var e := es[0];
    var d := root + projectName;
    var k := d + q;
    WellFormedTail(es);
    NoIgnoreClashTail(es);
    var head := EntryMirror(e, root, projectName, render);
    assert Mirror(es, root, projectName, render) == head + Mirror(es[1..], root, projectName, render);
    if e.name == q[0] {
      var children := e.node.entries;
      var dir := projectName + [e.name];
      assert head == map[d + [e.name] := DirEntry] + Mirror(children, root, dir, render);
      if |q| > 1 {
        MirrorHasDirs(children, root, dir, render, q[1..]);
        assert root + dir + q[1..] == k by {
          assert q == [q[0]] + q[1..];
        }
      } else {
        assert q == [e.name];
        if k in Mirror(children, root, dir, render) {
          MirrorKeys(children, root, dir, render, k);
        }
      }
      assert StrictlyUnder(k, d) && k[|d|] == TargetOf(e);
      MirrorTailMisses(es, root, projectName, render, k);
    } else {
      MirrorHasDirs(es[1..], root, projectName, render, q);
    }
  }

  /** Where a file one directory down lands, seen from the directory above. */
  lemma NestedFilePath(root: Path, projectName: Path, name: string, p: Path)
    requires |p| > 0
    ensures var k := root + (projectName + [name]) + DestOf(p);
      && k == root + projectName + DestOf([name] + p)
      && projectName + [name] + DirOf(p) == projectName + DirOf([name] + p)
      && StrictlyUnder(k, root + projectName) && k[|root + projectName|] == name
  {
    WithinPaths(name, p, projectName);
    var d := root + projectName;
    var k := root + (projectName + [name]) + DestOf(p);
    assert k == d + [name] + DestOf(p);
    assert k[..|d| + 1] == d + [name];
  }

  /** The first entry's own mirror holds the file `p` found through it, below its destination name. */
  lemma {:induction false} EntryMirrorHasFile(es: seq<Entry>, root: Path, projectName: Path, render: (string, string) -> string, p: Path, c: string)
    requires |es| > 0 && |p| > 0 && es[0].name == p[0]
    requires WellFormed(es) && NoIgnoreClash(es) && Lookup(es, p) == Some(File(c))
    ensures var head := EntryMirror(es[0], root, projectName, render);
      var k := root + projectName + DestOf(p);
      && k in head && head[k] == FileEntry(render(c, PathString(projectName + DirOf(p))))
      && StrictlyUnder(k, root + projectName) && k[|root + projectName|] == TargetOf(es[0])
    decreases es, 0
  {
    var e := es[0];
    if |p| > 1 {
      WellFormedTail(es);
      NoIgnoreClashTail(es);
      var children := e.node.entries;
      var dir := projectName + [e.name];
      assert EntryMirror(e, root, projectName, render)
          == map[root + projectName + [e.name] := DirEntry] + Mirror(children, root, dir, render);
      assert Lookup(children, p[1..]) == Some(File(c));
      MirrorHasFiles(children, root, dir, render, p[1..], c);
      assert p == [e.name] + p[1..];
      NestedFilePath(root, projectName, e.name, p[1..]);
    } else {
      assert p == [e.name];
      assert DestOf(p) == [TargetName(e.name)];
      assert DirOf(p) == [];
      assert projectName + [] == projectName;
    }
  }

  /**
   * Every regular file `p` of a clash-free template is, in the mirror, a
   * file at its renamed destination holding its rendered contents.
   */
  lemma {:induction false} MirrorHasFiles(es: seq<Entry>, root: Path, projectName: Path, render: (string, string) -> string, p: Path, c: string)
    requires WellFormed(es) && NoIgnoreClash(es) && Lookup(es, p) == Some(File(c))
    ensures var m := Mirror(es, root, projectName, render);
      var k := root + projectName + DestOf(p);
      k in m && m[k] == FileEntry(render(c, PathString(projectName + DirOf(p))))
    decreases es, 1
  {
    var k := root + projectName + DestOf(p);
    assert Mirror(es, root, projectName, render)
        == EntryMirror(es[0], root, projectName, render) + Mirror(es[1..], root, projectName, render);
    if es[0].name == p[0] {
      EntryMirrorHasFile(es, root, projectName, render, p, c);
      MirrorTailMisses(es, root, projectName, render, k);
    } else {
      WellFormedTail(es);
      NoIgnoreClashTail(es);
      MirrorHasFiles(es[1..], root, projectName, render, p, c);
    }
  }

  /**
   * An entry `v` at `k` that the copy of template `es` accounts for: a
   * template directory at the same relative path, or a template file at
   * its renamed destination with its rendered contents.
   */
  ghost predicate FromTemplate(es: seq<Entry>, root: Path, projectName: Path, render: (string, string) -> string, k: Path, v: FsEntry)
  {
    || (exists q :: DirAt(es, q) && k == root + projectName + q && v == DirEntry)
    || (exists p, c :: Lookup(es, p) == Some(File(c)) && k == root + projectName + DestOf(p)
                       && v == FileEntry(render(c, PathString(projectName + DirOf(p)))))
  }

  /** What the rest of a well-formed listing accounts for, the whole listing does. */
  lemma FromTemplateTail(es: seq<Entry>, root: Path, projectName: Path, render: (string, string) -> string, k: Path, v: FsEntry)
    requires |es| > 0 && WellFormed(es) && FromTemplate(es[1..], root, projectName, render, k, v)
    ensures FromTemplate(es, root, projectName, render, k, v)
  {
    if exists q :: DirAt(es[1..], q) && k == root + projectName + q && v == DirEntry {
      var q :| DirAt(es[1..], q) && k == root + projectName + q && v == DirEntry;
      LookupTail(es, q);
    } else {
      var p, c :| Lookup(es[1..], p) == Some(File(c)) && k == root + projectName + DestOf(p)
                  && v == FileEntry(render(c, PathString(projectName + DirOf(p))));
      LookupTail(es, p);
    }
  }

  lemma LookupInto(es: seq<Entry>, q: Path)
    requires |es| > 0 && es[0].node.Dir? && Lookup(es[0].node.entries, q).Some?
    ensures Lookup(es, [es[0].name] + q) == Lookup(es[0].node.entries, q)
  {
    LookupPaths(es[0].node.entries, q);
    assert ([es[0].name] + q)[1..] == q;
  }

  lemma DirFromTemplateInto(es: seq<Entry>, root: Path, projectName: Path, render: (string, string) -> string, k: Path, q: Path)
    requires |es| > 0 && es[0].node.Dir? && DirAt(es[0].node.entries, q)
    requires k == root + (projectName + [es[0].name]) + q
    ensures FromTemplate(es, root, projectName, render, k, DirEntry)
  {
    LookupInto(es, q);
    var q' := [es[0].name] + q;
    assert k == root + projectName + q';
    assert DirAt(es, q');
  }

  lemma FileFromTemplateInto(es: seq<Entry>, root: Path, projectName: Path, render: (string, string) -> string, k: Path, p: Path, c: string)
    requires |es| > 0 && es[0].node.Dir? && Lookup(es[0].node.entries, p) == Some(File(c))
    requires k == root + (projectName + [es[0].name]) + DestOf(p)
    ensures FromTemplate(es, root, projectName, render, k, FileEntry(render(c, PathString(projectName + [es[0].name] + DirOf(p)))))
  {
    var name := es[0].name;
    LookupInto(es, p);
    LookupPaths(es[0].node.entries, p);
    WithinPaths(name, p, projectName);
    var p' := [name] + p;
    assert k == root + projectName + DestOf(p');
    assert projectName + [name] + DirOf(p) == projectName + DirOf(p');
    assert Lookup(es, p') == Some(File(c));
  }

  /** What the first entry's own listing accounts for, one level down, the whole listing does. */
  lemma FromTemplateInto(es: seq<Entry>, root: Path, projectName: Path, render: (string, string) -> string, k: Path, v: FsEntry)
    requires |es| > 0 && es[0].node.Dir?
    requires FromTemplate(es[0].node.entries, root, projectName + [es[0].name], render, k, v)
    ensures FromTemplate(es, root, projectName, render, k, v)
  {
    var children := es[0].node.entries;
    var dir := projectName + [es[0].name];
    if exists q :: DirAt(children, q) && k == root + dir + q && v == DirEntry {
      var q :| DirAt(children, q) && k == root + dir + q && v == DirEntry;
      DirFromTemplateInto(es, root, projectName, render, k, q);
    } else {
      var p, c :| Lookup(children, p) == Some(File(c)) && k == root + dir + DestOf(p)
                  && v == FileEntry(render(c, PathString(dir + DirOf(p))));
      FileFromTemplateInto(es, root, projectName, render, k, p, c);
    }
  }

  /** Everything in the mirror comes from a directory or a regular file of the template. */
  lemma {:induction false} MirrorOnlyTemplate(es: seq<Entry>, root: Path, projectName: Path, render: (string, string) -> string, k: Path)
    requires WellFormed(es) && k in Mirror(es, root, projectName, render)
    ensures FromTemplate(es, root, projectName, render, k, Mirror(es, root, projectName, render)[k])
    decreases es
  {
    var e := es[0];
    var d := root + projectName;
    var m := Mirror(es, root, projectName, render);
    var head := EntryMirror(e, root, projectName, render);
    var tail := Mirror(es[1..], root, projectName, render);
    assert m == head + tail;
    WellFormedTail(es);
    if k in tail {
      MirrorOnlyTemplate(es[1..], root, projectName, render, k);
      FromTemplateTail(es, root, projectName, render, k, m[k]);
    } else {
      assert m[k] == head[k];
      match e.node
      case File(c) =>
        var p := [e.name];
        assert Lookup(es, p) == Some(File(c));
        assert DestOf(p) == [TargetName(e.name)];
        assert DirOf(p) == [];
        assert projectName + [] == projectName;
      case Dir(children) =>
        var dir := projectName + [e.name];
        var sub := Mirror(children, root, dir, render);
        assert head == map[d + [e.name] := DirEntry] + sub;
        if k in sub {
          assert m[k] == sub[k];
          MirrorOnlyTemplate(children, root, dir, render, k);
          FromTemplateInto(es, root, projectName, render, k, m[k]);
        } else {
          assert k == d + [e.name];
          assert DirAt(es, [e.name]);
        }
    }
  }

  lemma UnionAssociates<K, V>(a: map<K, V>, b: map<K, V>, c: map<K, V>)
    ensures a + b + c == a + (b + c)
  {
  }
}
