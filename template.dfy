/**
 * A template: the tree under `templates/<name>` that the copier reads
 * (bin/index.js lines 147-175).  A directory is the list of its entries in
 * the order `readdirSync` returns them; `statSync` tells a regular file, a
 * directory, or something else (a socket, a FIFO, a device), which the
 * copier skips.  A file's contents are the text `readFileSync(.., "utf8")`
 * returns.
 */
module Template {
  import opened Wrappers
  import opened Paths

  datatype Node = File(contents: string) | Dir(entries: seq<Entry>) | Other
  datatype Entry = Entry(name: string, node: Node)

  predicate DistinctNames(es: seq<Entry>)
  {
    forall i, j :: 0 <= i < j < |es| ==> es[i].name != es[j].name
  }

  /** What any real directory tree satisfies: no two entries of one directory share a name. */
  predicate WellFormed(es: seq<Entry>)
    decreases es
  {
    && DistinctNames(es)
    && forall i :: 0 <= i < |es| ==> (es[i].node.Dir? ==> WellFormed(es[i].node.entries))
  }

  lemma WellFormedTail(es: seq<Entry>)
    requires |es| > 0 && WellFormed(es)
    ensures WellFormed(es[1..])
    ensures es[0].node.Dir? ==> WellFormed(es[0].node.entries)
    ensures forall j :: 1 <= j < |es| ==> es[j].name != es[0].name
  {
    assert forall i :: 0 <= i < |es| - 1 ==> es[1..][i] == es[i + 1];
  }

  function Names(es: seq<Entry>): set<string>
  {
    set i | 0 <= i < |es| :: es[i].name
  }

  /** `existsSync(join(dir, name))` for an entry directly in the listing. */
  predicate HasEntry(es: seq<Entry>, name: string)
  {
    name in Names(es)
  }

  /** The node at a relative path, found by name one component at a time. */
  function Lookup(es: seq<Entry>, p: Path): Option<Node>
    decreases es
  {
    if p == [] || es == [] then None
    else if es[0].name == p[0] then
      if |p| == 1 then Some(es[0].node)
      else
        match es[0].node
        case Dir(children) => Lookup(children, p[1..])
        case _ => None
    else Lookup(es[1..], p)
  }

  /** A regular file of the template: its path relative to the template root and its contents. */
  datatype FileRecord = FileRecord(path: Path, contents: string)

  /** Prefixes every record's path with one directory name. */
  function Within(name: string, fl: seq<FileRecord>): (r: seq<FileRecord>)
    ensures |r| == |fl|
  {
    if fl == [] then []
    else [FileRecord([name] + fl[0].path, fl[0].contents)] + Within(name, fl[1..])
  }

  /** The regular files at and under one entry, paths relative to the directory holding it. */
  function EntryFiles(e: Entry): seq<FileRecord>
    decreases e
  {
    match e.node
    case File(c) => [FileRecord([e.name], c)]
    case Dir(children) => Within(e.name, FileList(children))
    case Other => []
  }

  /** The regular files of a tree, in walk order (each directory's entries in listing order, depth first). */
  function FileList(es: seq<Entry>): seq<FileRecord>
    decreases es
  {
    if es == [] then [] else EntryFiles(es[0]) + FileList(es[1..])
  }

  lemma {:induction false} WithinMember(name: string, fl: seq<FileRecord>, rec: FileRecord)
    ensures rec in Within(name, fl)
        <==> |rec.path| > 0 && rec.path[0] == name && FileRecord(rec.path[1..], rec.contents) in fl
  {
    if fl != [] {
      WithinMember(name, fl[1..], rec);
      var first := FileRecord([name] + fl[0].path, fl[0].contents);
      assert Within(name, fl) == [first] + Within(name, fl[1..]);
      if rec == first {
        assert rec.path[1..] == fl[0].path;
      }
      if |rec.path| > 0 && rec.path[0] == name && FileRecord(rec.path[1..], rec.contents) == fl[0] {
        assert rec.path == [name] + rec.path[1..];
      }
    }
  }

  /** Every listed file has a non-empty path whose first component names an entry of the root. */
  lemma {:induction false} FileListPaths(es: seq<Entry>, rec: FileRecord)
    requires rec in FileList(es)
    ensures |rec.path| > 0 && rec.path[0] in Names(es)
    decreases es
  {
    var e := es[0];
    assert FileList(es) == EntryFiles(e) + FileList(es[1..]);
    match e.node
    case File(c) =>
      if rec !in [FileRecord([e.name], c)] {
        FileListPaths(es[1..], rec);
        assert rec.path[0] in Names(es[1..]);
        var i :| 0 <= i < |es[1..]| && es[1..][i].name == rec.path[0];
        assert es[i + 1].name == rec.path[0];
      }
    case Dir(children) =>
      if rec in Within(e.name, FileList(children)) {
        WithinMember(e.name, FileList(children), rec);
      } else {
        FileListPaths(es[1..], rec);
        var i :| 0 <= i < |es[1..]| && es[1..][i].name == rec.path[0];
        assert es[i + 1].name == rec.path[0];
      }
    case Other =>
      FileListPaths(es[1..], rec);
      var i :| 0 <= i < |es[1..]| && es[1..][i].name == rec.path[0];
      assert es[i + 1].name == rec.path[0];
  }

  /**
   * The walk lists exactly the regular files of the tree: a record is
   * listed if and only if looking its path up finds a file with those
   * contents.
   */
  lemma {:induction false} FileListExact(es: seq<Entry>, p: Path, c: string)
    requires WellFormed(es)
    ensures FileRecord(p, c) in FileList(es) <==> Lookup(es, p) == Some(File(c))
    decreases es
  {
    var rec := FileRecord(p, c);
    if rec in FileList(es) {
      FileListPaths(es, rec);
    }
    if es != [] && p != [] {
      WellFormedTail(es);
      var e := es[0];
      assert FileList(es) == EntryFiles(e) + FileList(es[1..]);
      if e.name == p[0] {
        if rec in FileList(es[1..]) {
          FileListPaths(es[1..], rec);
          assert false;
        }
        match e.node
        case File(c0) =>
          if |p| == 1 {
            assert p == [e.name];
          }
        case Dir(children) =>
          WithinMember(e.name, FileList(children), rec);
          if |p| == 1 {
            if FileRecord(p[1..], c) in FileList(children) {
              FileListPaths(children, FileRecord(p[1..], c));
            }
          } else {
            FileListExact(children, p[1..], c);
          }
        case Other =>
      } else {
        FileListExact(es[1..], p, c);
        if e.node.Dir? {
          WithinMember(e.name, FileList(e.node.entries), rec);
        }
      }
    }
  }

  /** A directory of the tree at a relative path. */
  predicate DirAt(es: seq<Entry>, q: Path)
  {
    Lookup(es, q).Some? && Lookup(es, q).value.Dir?
  }

  /** Prefixes every path with one directory name. */
  function Under(name: string, ps: seq<Path>): (r: seq<Path>)
    ensures |r| == |ps|
  {
    if ps == [] then [] else [[name] + ps[0]] + Under(name, ps[1..])
  }

  /** The directories at and under one entry, paths relative to the directory holding it. */
  function EntryDirs(e: Entry): seq<Path>
    decreases e
  {
    match e.node
    case Dir(children) => [[e.name]] + Under(e.name, DirList(children))
    case _ => []
  }

  /** The directories of a tree, in walk order: each one before the directories inside it. */
  function DirList(es: seq<Entry>): seq<Path>
    decreases es
  {
    if es == [] then [] else EntryDirs(es[0]) + DirList(es[1..])
  }

  predicate NoDuplicates<T(==)>(s: seq<T>)
  {
    forall i, j :: 0 <= i < j < |s| ==> s[i] != s[j]
  }

  lemma {:induction false} UnderAt(name: string, ps: seq<Path>, k: nat)
    requires k < |ps|
    ensures Under(name, ps)[k] == [name] + ps[k]
  {
    if k > 0 {
      UnderAt(name, ps[1..], k - 1);
    }
  }

  lemma UnderMember(name: string, ps: seq<Path>, q: Path)
    ensures q in Under(name, ps) <==> |q| > 0 && q[0] == name && q[1..] in ps
  {
    var u := Under(name, ps);
    if q in u {
      var k :| 0 <= k < |u| && u[k] == q;
      UnderAt(name, ps, k);
      assert q[1..] == ps[k];
    }
    if |q| > 0 && q[0] == name && q[1..] in ps {
      var k :| 0 <= k < |ps| && ps[k] == q[1..];
      UnderAt(name, ps, k);
      assert u[k] == q;
    }
  }

  lemma UnderNoDuplicates(name: string, ps: seq<Path>)
    requires NoDuplicates(ps)
    ensures NoDuplicates(Under(name, ps))
  {
    var u := Under(name, ps);
    forall i, j | 0 <= i < j < |u| ensures u[i] != u[j] {
      UnderAt(name, ps, i);
      UnderAt(name, ps, j);
      assert u[i][1..] == ps[i] && u[j][1..] == ps[j];
    }
  }

  lemma NoDuplicatesAppend<T>(a: seq<T>, b: seq<T>)
    requires NoDuplicates(a) && NoDuplicates(b)
    requires forall x :: x in a ==> x !in b
    ensures NoDuplicates(a + b)
  {
    var s := a + b;
    forall i, j | 0 <= i < j < |s| ensures s[i] != s[j] {
      if i < |a| && |a| <= j {
        assert s[i] in a && s[j] == b[j - |a|];
      }
    }
  }

  /** Every listed directory has a non-empty path whose first component names an entry of the root. */
  lemma {:induction false} DirListPaths(es: seq<Entry>, q: Path)
    requires q in DirList(es)
    ensures |q| > 0 && q[0] in Names(es)
    decreases es
  {
    var e := es[0];
    assert DirList(es) == EntryDirs(e) + DirList(es[1..]);
    if q in EntryDirs(e) {
      var children := e.node.entries;
      UnderMember(e.name, DirList(children), q);
      assert q == [e.name] || q in Under(e.name, DirList(children));
      assert es[0].name == q[0];
    } else {
      DirListPaths(es[1..], q);
      var i :| 0 <= i < |es[1..]| && es[1..][i].name == q[0];
      assert es[i + 1].name == q[0];
    }
  }

  /** The walk lists exactly the directories of the tree. */
  lemma {:induction false} DirListExact(es: seq<Entry>, q: Path)
    requires WellFormed(es)
    ensures q in DirList(es) <==> DirAt(es, q)
    decreases es
  {
    if q in DirList(es) {
      DirListPaths(es, q);
    }
    if es != [] && q != [] {
      WellFormedTail(es);
      var e := es[0];
      assert DirList(es) == EntryDirs(e) + DirList(es[1..]);
      if e.name == q[0] {
        if q in DirList(es[1..]) {
          DirListPaths(es[1..], q);
          assert false;
        }
        match e.node
        case File(_) =>
        case Dir(children) =>
          UnderMember(e.name, DirList(children), q);
          if |q| == 1 {
            assert q == [e.name];
          } else {
            DirListExact(children, q[1..]);
          }
        case Other =>
      } else {
        if e.node.Dir? {
          UnderMember(e.name, DirList(e.node.entries), q);
        }
        DirListExact(es[1..], q);
      }
    }
  }

  /** No directory is listed twice. */
  lemma {:induction false} DirListDistinct(es: seq<Entry>)
    requires WellFormed(es)
    ensures NoDuplicates(DirList(es))
    decreases es
  {
    if es != [] {
      WellFormedTail(es);
      var e := es[0];
      DirListDistinct(es[1..]);
      if e.node.Dir? {
        var ds := DirList(e.node.entries);
        DirListDistinct(e.node.entries);
        UnderNoDuplicates(e.name, ds);
        forall x | x in [[e.name]] ensures x !in Under(e.name, ds) {
          if x in Under(e.name, ds) {
            UnderMember(e.name, ds, x);
            DirListPaths(e.node.entries, x[1..]);
          }
        }
        NoDuplicatesAppend([[e.name]], Under(e.name, ds));
      }
      assert e.name !in Names(es[1..]) by {
        forall i | 0 <= i < |es[1..]| ensures es[1..][i].name != e.name {
          assert es[1..][i] == es[i + 1];
        }
      }
      forall x | x in EntryDirs(e) ensures x !in DirList(es[1..]) {
        if e.node.Dir? && x != [e.name] {
          UnderMember(e.name, DirList(e.node.entries), x);
        }
        if x in DirList(es[1..]) {
          DirListPaths(es[1..], x);
        }
      }
      NoDuplicatesAppend(EntryDirs(e), DirList(es[1..]));
    }
  }

  /** Whatever a lookup finds sits below an entry of the root. */
  lemma {:induction false} LookupPaths(es: seq<Entry>, q: Path)
    requires Lookup(es, q).Some?
    ensures |q| > 0 && q[0] in Names(es)
    decreases es
  {
    if es[0].name != q[0] {
      LookupPaths(es[1..], q);
      var i :| 0 <= i < |es[1..]| && es[1..][i].name == q[0];
      assert es[i + 1].name == q[0];
    } else {
      assert es[0].name in Names(es);
    }
  }

  /** A path found in the rest of a well-formed listing is found the same way in the whole. */
  lemma LookupTail(es: seq<Entry>, q: Path)
    requires |es| > 0 && WellFormed(es) && Lookup(es[1..], q).Some?
    ensures Lookup(es, q) == Lookup(es[1..], q)
  {
    LookupPaths(es[1..], q);
    WellFormedTail(es);
    var i :| 0 <= i < |es[1..]| && es[1..][i].name == q[0];
    assert es[i + 1].name == q[0];
  }

  /** No two records of a file list share a path. */
  predicate PathsDistinct(fl: seq<FileRecord>)
  {
    forall i, j :: 0 <= i < j < |fl| ==> fl[i].path != fl[j].path
  }

  lemma {:induction false} WithinAt(name: string, fl: seq<FileRecord>, k: nat)
    requires k < |fl|
    ensures Within(name, fl)[k] == FileRecord([name] + fl[k].path, fl[k].contents)
  {
    if k > 0 {
      WithinAt(name, fl[1..], k - 1);
    }
  }

  lemma WithinPathsDistinct(name: string, fl: seq<FileRecord>)
    requires PathsDistinct(fl)
    ensures PathsDistinct(Within(name, fl))
  {
    var w := Within(name, fl);
    forall i, j | 0 <= i < j < |w| ensures w[i].path != w[j].path {
      WithinAt(name, fl, i);
      WithinAt(name, fl, j);
      assert w[i].path[1..] == fl[i].path && w[j].path[1..] == fl[j].path;
    }
  }

  lemma PathsDistinctAppend(a: seq<FileRecord>, b: seq<FileRecord>)
    requires PathsDistinct(a) && PathsDistinct(b)
    requires forall r, t :: r in a && t in b ==> r.path != t.path
    ensures PathsDistinct(a + b)
  {
    var s := a + b;
    forall i, j | 0 <= i < j < |s| ensures s[i].path != s[j].path {
      if i < |a| && |a| <= j {
        assert s[i] in a && s[j] == b[j - |a|];
      } else if |a| <= i {
        assert s[i] == b[i - |a|] && s[j] == b[j - |a|];
      }
    }
  }

  /** Every file at or under one entry has a path starting with that entry's name. */
  lemma EntryFilesHead(e: Entry, rec: FileRecord)
    requires rec in EntryFiles(e)
    ensures |rec.path| > 0 && rec.path[0] == e.name
  {
    if e.node.Dir? {
      WithinMember(e.name, FileList(e.node.entries), rec);
    }
  }

  /** The walk lists every regular file once: no two records share a path. */
  lemma {:induction false} FileListDistinct(es: seq<Entry>)
    requires WellFormed(es)
    ensures PathsDistinct(FileList(es))
    ensures NoDuplicates(FileList(es))
    decreases es
  {
    if es != [] {
      WellFormedTail(es);
      var e := es[0];
      FileListDistinct(es[1..]);
      if e.node.Dir? {
        FileListDistinct(e.node.entries);
        WithinPathsDistinct(e.name, FileList(e.node.entries));
      }
      assert e.name !in Names(es[1..]) by {
        forall i | 0 <= i < |es[1..]| ensures es[1..][i].name != e.name {
          assert es[1..][i] == es[i + 1];
        }
      }
      forall r, t | r in EntryFiles(e) && t in FileList(es[1..]) ensures r.path != t.path {
        EntryFilesHead(e, r);
        FileListPaths(es[1..], t);
      }
      PathsDistinctAppend(EntryFiles(e), FileList(es[1..]));
    }
  }

  /** Looking up a root name finds an entry of that name. */
  lemma {:induction false} LookupRootName(es: seq<Entry>, name: string) returns (i: nat)
    requires name in Names(es)
    ensures i < |es| && es[i].name == name && Lookup(es, [name]) == Some(es[i].node)
    decreases es
  {
    if es[0].name == name {
      i := 0;
    } else {
      assert name in Names(es[1..]) by {
        var k :| 0 <= k < |es| && es[k].name == name;
        assert es[1..][k - 1] == es[k];
      }
      var j := LookupRootName(es[1..], name);
      i := j + 1;
    }
  }
}
