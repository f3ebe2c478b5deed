/** The installer's timestamp-gated tree copy (`copyDirectory`): every file of a
    template tree is copied into the target directory, except that a target
    file whose modification time is strictly later than the template's is
    treated as locally modified and left alone. The template tree is read-only
    input; the target side is an abstract file system mapping paths to nodes,
    and the clock is a parameter (`now`, the time a copy or a new directory
    receives).
 */
module TreeCopy {
  import opened Wrappers

  /** A path as its sequence of components; `[]` is the root. */
  type Path = seq<string>

  type Bytes = seq<bv8>

  /** A template tree as `readdirSync`/`statSync` see it. */
  datatype Tree = File(data: Bytes, mtime: int) | Dir(entries: seq<Entry>)

  datatype Entry = Entry(name: string, node: Tree)

  /** A node of the target file system. Directories carry a modification time
      because `statSync` is also asked for the time of a directory that stands
      where a template file should go. */
  datatype Node = RegularFile(data: Bytes, mtime: int) | Directory(mtime: int)

  type FileSystem = map<Path, Node>

  /** The error a file-system call throws; it aborts the whole installation. */
  datatype FsError =
    | NoSuchFile       // ENOENT: the parent of a copied file does not exist
    | NotADirectory    // ENOTDIR: a path component is a file
    | IsADirectory     // EISDIR: a file copy onto an existing directory

  /** `existsSync(p)`; the root always exists. */
  predicate Exists(fs: FileSystem, p: Path) {
    p == [] || p in fs
  }

  predicate IsDirectory(fs: FileSystem, p: Path) {
    p == [] || (p in fs && fs[p].Directory?)
  }

  function Parent(p: Path): Path
    requires p != []
  {
    p[..|p| - 1]
  }

  /** `mkdirSync(p, { recursive: true })` for an absent `p`: every missing
      ancestor is created, and a file on the way is an error. */
  function MakeDirs(fs: FileSystem, p: Path, now: int): (r: Result<FileSystem, FsError>)
    decreases |p|
    ensures r.Ok? ==> IsDirectory(r.value, p)
    ensures r.Ok? ==> forall q :: q in fs ==> q in r.value && r.value[q] == fs[q]
    ensures r.Ok? ==> forall q :: q in r.value && q !in fs ==> q <= p && r.value[q] == Directory(now)
  {
    if p == [] then Ok(fs)
    else if p in fs then
      if fs[p].Directory? then Ok(fs) else Err(NotADirectory)
    else
      match MakeDirs(fs, Parent(p), now)
      case Err(e) => Err(e)
      case Ok(fs1) => Ok(fs1[p := Directory(now)])
  }

  /** `copyFileSync(source, p)`: the target receives the bytes and, as a fresh
      write on Linux, the current time. */
  function CopyFile(fs: FileSystem, p: Path, data: Bytes, now: int): (r: Result<FileSystem, FsError>)
    requires p != []
    ensures r.Ok? ==> r.value == fs[p := RegularFile(data, now)]
    ensures r.Ok? <==> IsDirectory(fs, Parent(p)) && !(p in fs && fs[p].Directory?)
  {
    if !Exists(fs, Parent(p)) then Err(NoSuchFile)
    else if !IsDirectory(fs, Parent(p)) then Err(NotADirectory)
    else if p in fs && fs[p].Directory? then Err(IsADirectory)
    else Ok(fs[p := RegularFile(data, now)])
  }

  /** One entry of a template directory, copied to path `p`. */
  function CopyNode(node: Tree, p: Path, fs: FileSystem, now: int): Result<FileSystem, FsError>
    requires p != []
    decreases node
  {
    match node
    case File(data, mtime) =>
      if p in fs && fs[p].mtime > mtime then Ok(fs)  // locally modified: skipped with a warning
      else CopyFile(fs, p, data, now)
    case Dir(entries) =>
      var made := if p in fs then Ok(fs) else MakeDirs(fs, p, now);
      match made
      case Err(e) => Err(e)
      case Ok(fs1) => CopyEntries(entries, p, fs1, now)
  }

  /** The `forEach` over the entries of a template directory, in listing order. */
  function CopyEntries(entries: seq<Entry>, dir: Path, fs: FileSystem, now: int): Result<FileSystem, FsError>
    decreases entries
  {
    if entries == [] then Ok(fs)
    else
      match CopyNode(entries[0].node, dir + [entries[0].name], fs, now)
      case Err(e) => Err(e)
      case Ok(fs1) => CopyEntries(entries[1..], dir, fs1, now)
  }

  /** `copyDirectory(source, target)`; `source` is None when it does not exist. */
  function CopyDirectory(source: Option<Tree>, target: Path, fs: FileSystem, now: int): (r: Result<FileSystem, FsError>)
    ensures source.None? ==> r == Ok(fs)
  {
    match source
    case None => Ok(fs)
    case Some(File(_, _)) => Err(NotADirectory)  // `readdirSync` on a file
    case Some(Dir(entries)) => CopyEntries(entries, target, fs, now)
  }

  // ---------------------------------------------------------------------------
  // Looking paths up in a template tree

  /** No two entries of a directory listing share a name. */
  predicate UniqueNames(entries: seq<Entry>) {
    forall i, j :: 0 <= i < j < |entries| ==> entries[i].name != entries[j].name
  }

  /** Every directory of the tree lists each name once, as `readdirSync` does. */
  predicate WellFormed(t: Tree)
    decreases t
  {
    match t
    case File(_, _) => true
    case Dir(entries) =>
      UniqueNames(entries) && forall i :: 0 <= i < |entries| ==> WellFormed(entries[i].node)
  }

  /** The entry named `name` in a listing (the first one, were names repeated). */
  function Lookup(entries: seq<Entry>, name: string): Option<Tree>
  {
    if entries == [] then None
    else if entries[0].name == name then Some(entries[0].node)
    else Lookup(entries[1..], name)
  }

  /** The subtree at relative path `rel`, if there is one. */
  function Find(t: Tree, rel: Path): Option<Tree>
    decreases |rel|
  {
    if rel == [] then Some(t)
    else
      match t
      case File(_, _) => None
      case Dir(entries) =>
        match Lookup(entries, rel[0])
        case None => None
        case Some(child) => Find(child, rel[1..])
  }

  predicate FileAt(t: Tree, rel: Path) {
    Find(t, rel).Some? && Find(t, rel).value.File?
  }

  predicate DirAt(t: Tree, rel: Path) {
    Find(t, rel).Some? && Find(t, rel).value.Dir?
  }

  /** `q` is where some file of `src` lands when `src` is copied to `target`. */
  predicate IsFileTarget(src: Tree, target: Path, q: Path) {
    target <= q && FileAt(src, q[|target|..])
  }

  /** What a copy leaves at target path `q` for the template file `f`: the
      existing node when it is strictly newer, otherwise a fresh copy. */
  function Expected(fs: FileSystem, q: Path, f: Tree, now: int): Node
    requires f.File?
  {
    if q in fs && fs[q].mtime > f.mtime then fs[q] else RegularFile(f.data, now)
  }

  // ---------------------------------------------------------------------------
  // What a successful copy of `src` to `target` does, path by path

  /** Every template file is at its target path, kept or freshly copied. */
  ghost predicate FilesCopied(src: Tree, target: Path, fs: FileSystem, fs': FileSystem, now: int) {
    forall rel :: FileAt(src, rel) ==>
      target + rel in fs' && fs'[target + rel] == Expected(fs, target + rel, Find(src, rel).value, now)
  }

  /** Every template subdirectory exists at its target path. */
  ghost predicate DirsExist(src: Tree, target: Path, fs': FileSystem) {
    forall rel :: DirAt(src, rel) && rel != [] ==> target + rel in fs'
  }

  /** Every path that is not a template file's target keeps its node. */
  predicate OthersKept(src: Tree, target: Path, fs: FileSystem, fs': FileSystem) {
    forall q :: q in fs && !IsFileTarget(src, target, q) ==> q in fs' && fs'[q] == fs[q]
  }

  /** New paths lie on the line through `target` and are copies or new directories. */
  predicate OnlyCopiesAdded(src: Tree, target: Path, fs: FileSystem, fs': FileSystem, now: int) {
    forall q :: q in fs' && q !in fs ==>
      (target <= q || q <= target) && (IsFileTarget(src, target, q) || fs'[q] == Directory(now))
  }

  ghost predicate CopySpec(src: Tree, target: Path, fs: FileSystem, fs': FileSystem, now: int) {
    && FilesCopied(src, target, fs, fs', now)
    && DirsExist(src, target, fs')
    && OthersKept(src, target, fs, fs')
    && OnlyCopiesAdded(src, target, fs, fs', now)
  }

  // ---------------------------------------------------------------------------
  // Lookup lemmas

  lemma LookupAbsent(entries: seq<Entry>, name: string)
    requires forall i :: 0 <= i < |entries| ==> entries[i].name != name
    ensures Lookup(entries, name) == None
  {
  }

  /** A lookup in `[e] + rest` is a lookup in `e` or in `rest`, by the first component. */
  lemma FindCons(e: Entry, rest: seq<Entry>, rel: Path)
    requires UniqueNames([e] + rest) && rel != []
    ensures rel[0] == e.name ==> Find(Dir([e] + rest), rel) == Find(e.node, rel[1..])
    ensures rel[0] == e.name ==> Find(Dir(rest), rel) == None
    ensures rel[0] != e.name ==> Find(Dir([e] + rest), rel) == Find(Dir(rest), rel)
  {
    assert ([e] + rest)[1..] == rest;
    if rel[0] == e.name {
      forall i | 0 <= i < |rest| ensures rest[i].name != e.name {
        assert ([e] + rest)[i + 1] == rest[i];
      }
      LookupAbsent(rest, e.name);
    }
  }

  lemma WellFormedCons(e: Entry, rest: seq<Entry>)
    requires WellFormed(Dir([e] + rest))
    ensures WellFormed(e.node) && WellFormed(Dir(rest))
    ensures UniqueNames([e] + rest)
  {
    var es := [e] + rest;
    assert es[0] == e;
    forall i, j | 0 <= i < j < |rest| ensures rest[i].name != rest[j].name {
      assert es[i + 1] == rest[i] && es[j + 1] == rest[j];
    }
    forall i | 0 <= i < |rest| ensures WellFormed(rest[i].node) {
      assert es[i + 1] == rest[i];
    }
  }

  /** Where the paths below `dir` fall relative to the child path `dir + [name]`. */
  lemma ChildPath(dir: Path, name: string, q: Path)
    requires dir <= q
    ensures dir + [name] <= q <==> |q| > |dir| && q[|dir|..][0] == name
    ensures dir + [name] <= q ==> q[|dir + [name]|..] == q[|dir|..][1..]
    ensures q <= dir + [name] <==> q == dir || q == dir + [name]
  {
    var c := dir + [name];
    if |q| > |dir| && q[|dir|] == name {
      assert q[..|c|] == c;
    }
    if q <= c && q != dir {
      assert |q| == |c|;
    }
  }

  /** The file targets of `Dir([e] + rest)` at `dir` are those of `e` at its
      own path together with those of `rest`. */
  lemma FileTargetSplit(e: Entry, rest: seq<Entry>, dir: Path, q: Path)
    requires UniqueNames([e] + rest)
    ensures IsFileTarget(Dir([e] + rest), dir, q) <==>
            IsFileTarget(e.node, dir + [e.name], q) || IsFileTarget(Dir(rest), dir, q)
    ensures IsFileTarget(e.node, dir + [e.name], q) ==> !IsFileTarget(Dir(rest), dir, q)
  {
    var c := dir + [e.name];
    if dir <= q {
      ChildPath(dir, e.name, q);
      var rel := q[|dir|..];
      if rel != [] {
        FindCons(e, rest, rel);
      }
    } else {
      assert !(c <= q);
    }
  }

  lemma DirTargetSplit(e: Entry, rest: seq<Entry>, rel: Path)
    requires UniqueNames([e] + rest) && rel != []
    ensures DirAt(Dir([e] + rest), rel) <==>
            (rel[0] == e.name && DirAt(e.node, rel[1..])) || (rel[0] != e.name && DirAt(Dir(rest), rel))
    ensures FileAt(Dir([e] + rest), rel) <==>
            (rel[0] == e.name && FileAt(e.node, rel[1..])) || (rel[0] != e.name && FileAt(Dir(rest), rel))
  {
    FindCons(e, rest, rel);
  }

  // ---------------------------------------------------------------------------
  // Composing the copy of the first entry with the copy of the rest

  /** A path below `dir` whose first component is not `name` is neither below
      nor above the child path `dir + [name]`. */
  lemma Unrelated(dir: Path, name: string, rel: Path)
    requires rel != [] && rel[0] != name
    ensures !(dir + [name] <= dir + rel) && !(dir + rel <= dir + [name])
  {
    assert (dir + rel)[|dir|] == rel[0];
    assert (dir + [name])[|dir|] == name;
  }

  /** Where `dir + rel` sits relative to the child `dir + [rel[0]]`. */
  lemma BelowChild(dir: Path, rel: Path)
    requires rel != []
    ensures dir + [rel[0]] <= dir + rel
    ensures (dir + [rel[0]]) + rel[1..] == dir + rel
    ensures (dir + rel)[|dir|..] == rel
    ensures (dir + rel)[|dir + [rel[0]]|..] == rel[1..]
  {
    assert rel == [rel[0]] + rel[1..];
  }

  lemma CombineFiles(e: Entry, rest: seq<Entry>, dir: Path, fs: FileSystem, fs1: FileSystem, fs2: FileSystem, now: int)
    requires UniqueNames([e] + rest)
    requires CopySpec(e.node, dir + [e.name], fs, fs1, now)
    requires CopySpec(Dir(rest), dir, fs1, fs2, now)
    ensures FilesCopied(Dir([e] + rest), dir, fs, fs2, now)
  {
    var c := dir + [e.name];
    forall rel | FileAt(Dir([e] + rest), rel)
      ensures dir + rel in fs2 && fs2[dir + rel] == Expected(fs, dir + rel, Find(Dir([e] + rest), rel).value, now)
    {
      assert rel != [];
      var q := dir + rel;
      FindCons(e, rest, rel);
      BelowChild(dir, rel);
      if rel[0] == e.name {
        assert FileAt(e.node, rel[1..]);
        assert q in fs1 && fs1[q] == Expected(fs, q, Find(e.node, rel[1..]).value, now);
        FileTargetSplit(e, rest, dir, q);
        assert IsFileTarget(e.node, c, q);
      } else {
        assert FileAt(Dir(rest), rel);
        Unrelated(dir, e.name, rel);
        assert !IsFileTarget(e.node, c, q);
        assert q in fs1 <==> q in fs;
      }
    }
  }

  lemma CombineDirs(e: Entry, rest: seq<Entry>, dir: Path, fs1: FileSystem, fs2: FileSystem)
    requires UniqueNames([e] + rest)
    requires DirsExist(e.node, dir + [e.name], fs1) && dir + [e.name] in fs1
    requires DirsExist(Dir(rest), dir, fs2) && OthersKept(Dir(rest), dir, fs1, fs2)
    ensures DirsExist(Dir([e] + rest), dir, fs2)
  {
    var c := dir + [e.name];
    forall rel | DirAt(Dir([e] + rest), rel) && rel != []
      ensures dir + rel in fs2
    {
      var q := dir + rel;
      DirTargetSplit(e, rest, rel);
      BelowChild(dir, rel);
      if rel[0] == e.name {
        assert dir + [rel[0]] == c;
        assert q in fs1 by {
          if rel[1..] != [] {
            assert DirAt(e.node, rel[1..]);
            assert c + rel[1..] in fs1;
            assert q == c + rel[1..];
          } else {
            assert rel == [e.name];
            assert q == c;
          }
        }
        FileTargetSplit(e, rest, dir, q);
        FindCons(e, rest, rel);
        assert !IsFileTarget(Dir(rest), dir, q);
      }
    }
  }

  lemma CombineKept(e: Entry, rest: seq<Entry>, dir: Path, fs: FileSystem, fs1: FileSystem, fs2: FileSystem)
    requires UniqueNames([e] + rest)
    requires OthersKept(e.node, dir + [e.name], fs, fs1)
    requires OthersKept(Dir(rest), dir, fs1, fs2)
    ensures OthersKept(Dir([e] + rest), dir, fs, fs2)
  {
    forall q | q in fs && !IsFileTarget(Dir([e] + rest), dir, q)
      ensures q in fs2 && fs2[q] == fs[q]
    {
      FileTargetSplit(e, rest, dir, q);
    }
  }

  /** Paths on the line through the child `dir + [e.name]` are no file targets of `rest`. */
  lemma NotRestTarget(e: Entry, rest: seq<Entry>, dir: Path, q: Path)
    requires UniqueNames([e] + rest)
    requires dir + [e.name] <= q || q <= dir + [e.name]
    ensures !IsFileTarget(Dir(rest), dir, q)
    ensures dir <= q || q <= dir
  {
    var c := dir + [e.name];
    if dir <= q {
      ChildPath(dir, e.name, q);
      var rel := q[|dir|..];
      if rel != [] {
        assert rel[0] == e.name;
        FindCons(e, rest, rel);
      }
    } else {
      assert q <= c;
      assert q <= dir;
    }
  }

  lemma CombineAdded(e: Entry, rest: seq<Entry>, dir: Path, fs: FileSystem, fs1: FileSystem, fs2: FileSystem, now: int)
    requires UniqueNames([e] + rest)
    requires OnlyCopiesAdded(e.node, dir + [e.name], fs, fs1, now)
    requires OthersKept(Dir(rest), dir, fs1, fs2)
    requires OnlyCopiesAdded(Dir(rest), dir, fs1, fs2, now)
    ensures OnlyCopiesAdded(Dir([e] + rest), dir, fs, fs2, now)
  {
    forall q | q in fs2 && q !in fs
      ensures (dir <= q || q <= dir) && (IsFileTarget(Dir([e] + rest), dir, q) || fs2[q] == Directory(now))
    {
      FileTargetSplit(e, rest, dir, q);
      if q in fs1 {
        NotRestTarget(e, rest, dir, q);
      }
    }
  }

  lemma Combine(e: Entry, rest: seq<Entry>, dir: Path, fs: FileSystem, fs1: FileSystem, fs2: FileSystem, now: int)
    requires UniqueNames([e] + rest)
    requires CopySpec(e.node, dir + [e.name], fs, fs1, now) && dir + [e.name] in fs1
    requires CopySpec(Dir(rest), dir, fs1, fs2, now)
    ensures CopySpec(Dir([e] + rest), dir, fs, fs2, now)
  {
    CombineFiles(e, rest, dir, fs, fs1, fs2, now);
    CombineDirs(e, rest, dir, fs1, fs2);
    CombineKept(e, rest, dir, fs, fs1, fs2);
    CombineAdded(e, rest, dir, fs, fs1, fs2, now);
  }

  // ---------------------------------------------------------------------------
  // The copy meets its path-by-path description

  lemma FileNodeSpec(data: Bytes, mtime: int, p: Path, fs: FileSystem, fs': FileSystem, now: int)
    requires p != [] && CopyNode(File(data, mtime), p, fs, now) == Ok(fs')
    ensures CopySpec(File(data, mtime), p, fs, fs', now) && p in fs'
  {
    var t := File(data, mtime);
    assert forall rel :: FileAt(t, rel) <==> rel == [];
    forall q ensures IsFileTarget(t, p, q) <==> q == p {
      if p <= q && q[|p|..] == [] {
        assert q == p;
      }
    }
    assert p + [] == p;
  }

  /** The directory `p` made (or found) before its entries are copied adds nothing
      the entries' description does not allow. */
  lemma DirNodeSpec(entries: seq<Entry>, p: Path, fs: FileSystem, fs1: FileSystem, fs2: FileSystem, now: int)
    requires p != [] && p in fs1
    requires forall q :: q in fs ==> q in fs1 && fs1[q] == fs[q]
    requires forall q :: q in fs1 && q !in fs ==> q <= p && fs1[q] == Directory(now)
    requires CopySpec(Dir(entries), p, fs1, fs2, now)
    ensures CopySpec(Dir(entries), p, fs, fs2, now) && p in fs2
  {
    var t := Dir(entries);
    forall q | q <= p ensures !IsFileTarget(t, p, q) {
      if p <= q {
        assert q == p && q[|p|..] == [];
      }
    }
    forall rel | FileAt(t, rel)
      ensures p + rel in fs2 && fs2[p + rel] == Expected(fs, p + rel, Find(t, rel).value, now)
    {
      assert rel != [];
      assert p + rel in fs1 ==> p + rel in fs;
    }
  }

  lemma {:induction false} CopyNodeSpec(node: Tree, p: Path, fs: FileSystem, now: int)
    requires p != [] && WellFormed(node) && CopyNode(node, p, fs, now).Ok?
    ensures CopySpec(node, p, fs, CopyNode(node, p, fs, now).value, now)
    ensures p in CopyNode(node, p, fs, now).value
    decreases node, 1
  {
    match node
    case File(data, mtime) =>
      FileNodeSpec(data, mtime, p, fs, CopyNode(node, p, fs, now).value, now);
    case Dir(entries) =>
      var fs1 := if p in fs then fs else MakeDirs(fs, p, now).value;
      CopyEntriesSpec(entries, p, fs1, now);
      DirNodeSpec(entries, p, fs, fs1, CopyEntries(entries, p, fs1, now).value, now);
  }

  lemma {:induction false} CopyEntriesSpec(entries: seq<Entry>, dir: Path, fs: FileSystem, now: int)
    requires WellFormed(Dir(entries)) && CopyEntries(entries, dir, fs, now).Ok?
    ensures CopySpec(Dir(entries), dir, fs, CopyEntries(entries, dir, fs, now).value, now)
    decreases entries, 0
  {
    if entries == [] {
      assert forall rel :: rel != [] ==> Find(Dir([]), rel) == None;
    } else {
      var e, rest := entries[0], entries[1..];
      assert entries == [e] + rest;
      WellFormedCons(e, rest);
      var c := dir + [e.name];
      CopyNodeSpec(e.node, c, fs, now);
      var fs1 := CopyNode(e.node, c, fs, now).value;
      CopyEntriesSpec(rest, dir, fs1, now);
      Combine(e, rest, dir, fs, fs1, CopyEntries(rest, dir, fs1, now).value, now);
    }
  }

  // ---------------------------------------------------------------------------
  // Properties of `copyDirectory`

  /** A successful copy of an existing template tree meets the path-by-path description. */
  lemma CopyDirectoryMeetsSpec(src: Tree, target: Path, fs: FileSystem, now: int)
    requires WellFormed(src) && CopyDirectory(Some(src), target, fs, now).Ok?
    ensures CopySpec(src, target, fs, CopyDirectory(Some(src), target, fs, now).value, now)
  {
    CopyEntriesSpec(src.entries, target, fs, now);
  }

  /** After a successful copy, a target file strictly newer than its template
      file keeps its node (contents and time); every other template file,
      one with an equal time included, is overwritten with the template's
      bytes and the current time. */
  lemma CopyRespectsLocalChanges(src: Tree, target: Path, fs: FileSystem, now: int, rel: Path)
    requires WellFormed(src) && CopyDirectory(Some(src), target, fs, now).Ok?
    requires FileAt(src, rel)
    ensures var fs' := CopyDirectory(Some(src), target, fs, now).value;
      var f := Find(src, rel).value;
      var q := target + rel;
      && q in fs'
      && (q in fs && fs[q].mtime > f.mtime ==> fs'[q] == fs[q])
      && (!(q in fs && fs[q].mtime > f.mtime) ==> fs'[q] == RegularFile(f.data, now))
  {
    CopyDirectoryMeetsSpec(src, target, fs, now);
  }

  /** Existing nodes agree in kind with the template: a directory wherever the
      template has a directory, a regular file wherever it has a file. */
  ghost predicate Compatible(src: Tree, target: Path, fs: FileSystem) {
    forall q :: q in fs && target <= q ==>
      && (DirAt(src, q[|target|..]) ==> fs[q].Directory?)
      && (FileAt(src, q[|target|..]) ==> fs[q].RegularFile?)
  }

  lemma CompatibleChild(e: Entry, rest: seq<Entry>, dir: Path, fs: FileSystem)
    requires UniqueNames([e] + rest) && Compatible(Dir([e] + rest), dir, fs)
    ensures Compatible(e.node, dir + [e.name], fs)
  {
    var c := dir + [e.name];
    forall q | q in fs && c <= q
      ensures (DirAt(e.node, q[|c|..]) ==> fs[q].Directory?) && (FileAt(e.node, q[|c|..]) ==> fs[q].RegularFile?)
    {
      assert dir <= q;
      ChildPath(dir, e.name, q);
      FindCons(e, rest, q[|dir|..]);
    }
  }

  lemma CompatibleRest(e: Entry, rest: seq<Entry>, dir: Path, fs: FileSystem, fs1: FileSystem, now: int)
    requires UniqueNames([e] + rest) && Compatible(Dir([e] + rest), dir, fs) && IsDirectory(fs, dir)
    requires CopySpec(e.node, dir + [e.name], fs, fs1, now)
    ensures Compatible(Dir(rest), dir, fs1) && IsDirectory(fs1, dir)
  {
    var c := dir + [e.name];
    assert !IsFileTarget(e.node, c, dir) by {
      assert !(c <= dir);
    }
    forall q | q in fs1 && dir <= q
      ensures (DirAt(Dir(rest), q[|dir|..]) ==> fs1[q].Directory?) && (FileAt(Dir(rest), q[|dir|..]) ==> fs1[q].RegularFile?)
    {
      var rel := q[|dir|..];
      if rel == [] {
        assert q == dir;
        assert !IsFileTarget(e.node, c, q) by {
          assert !(c <= q);
        }
      } else if Find(Dir(rest), rel).Some? {
        FindCons(e, rest, rel);
        assert q == dir + rel;
        Unrelated(dir, e.name, rel);
        assert !IsFileTarget(e.node, c, q);
      }
    }
  }

  lemma {:induction false} CopyNodeSucceeds(node: Tree, p: Path, fs: FileSystem, now: int)
    requires p != [] && WellFormed(node)
    requires IsDirectory(fs, Parent(p)) && Compatible(node, p, fs)
    ensures CopyNode(node, p, fs, now).Ok?
    decreases node, 1
  {
    assert p[|p|..] == [];
    match node
    case File(data, mtime) =>
    case Dir(entries) =>
      if p !in fs {
        assert MakeDirs(fs, Parent(p), now) == Ok(fs);
        assert MakeDirs(fs, p, now) == Ok(fs[p := Directory(now)]);
      }
      var fs1 := if p in fs then fs else fs[p := Directory(now)];
      forall q | q in fs1 && p <= q
        ensures (DirAt(node, q[|p|..]) ==> fs1[q].Directory?) && (FileAt(node, q[|p|..]) ==> fs1[q].RegularFile?)
      {
        if q == p {
        } else {
          assert q in fs;
        }
      }
      CopyEntriesSucceeds(entries, p, fs1, now);
  }

  lemma {:induction false} CopyEntriesSucceeds(entries: seq<Entry>, dir: Path, fs: FileSystem, now: int)
    requires WellFormed(Dir(entries))
    requires IsDirectory(fs, dir) && Compatible(Dir(entries), dir, fs)
    ensures CopyEntries(entries, dir, fs, now).Ok?
    decreases entries, 0
  {
    if entries != [] {
      var e, rest := entries[0], entries[1..];
      assert entries == [e] + rest;
      WellFormedCons(e, rest);
      var c := dir + [e.name];
      CompatibleChild(e, rest, dir, fs);
      assert Parent(c) == dir;
      CopyNodeSucceeds(e.node, c, fs, now);
      var fs1 := CopyNode(e.node, c, fs, now).value;
      CopyNodeSpec(e.node, c, fs, now);
      CompatibleRest(e, rest, dir, fs, fs1, now);
      CopyEntriesSucceeds(rest, dir, fs1, now);
    }
  }

  /** Copying into an existing directory whose contents agree in kind with the
      template (an empty target, for one) does not fail. */
  lemma CopyDirectorySucceeds(src: Tree, target: Path, fs: FileSystem, now: int)
    requires WellFormed(src) && src.Dir?
    requires IsDirectory(fs, target) && Compatible(src, target, fs)
    ensures CopyDirectory(Some(src), target, fs, now).Ok?
  {
    CopyEntriesSucceeds(src.entries, target, fs, now);
  }

  /** Every template file already has a strictly newer node at its target
      path, and every template subdirectory exists there. */
  ghost predicate UpToDate(src: Tree, target: Path, fs: FileSystem) {
    && (forall rel :: FileAt(src, rel) ==> target + rel in fs && fs[target + rel].mtime > Find(src, rel).value.mtime)
    && (forall rel :: DirAt(src, rel) && rel != [] ==> target + rel in fs)
  }

  lemma UpToDateChild(e: Entry, rest: seq<Entry>, dir: Path, fs: FileSystem)
    requires UniqueNames([e] + rest) && UpToDate(Dir([e] + rest), dir, fs)
    ensures UpToDate(e.node, dir + [e.name], fs)
    ensures UpToDate(Dir(rest), dir, fs)
    ensures DirAt(e.node, []) ==> dir + [e.name] in fs
  {
    var c := dir + [e.name];
    forall rel ensures Find(e.node, rel) == Find(Dir([e] + rest), [e.name] + rel) && c + rel == dir + ([e.name] + rel) {
      FindCons(e, rest, [e.name] + rel);
      assert ([e.name] + rel)[1..] == rel;
    }
    forall rel | rel != [] && Find(Dir(rest), rel).Some?
      ensures Find(Dir(rest), rel) == Find(Dir([e] + rest), rel)
    {
      FindCons(e, rest, rel);
    }
    assert c == dir + ([e.name] + []);
  }

  lemma {:induction false} CopyNodeUnchanged(node: Tree, p: Path, fs: FileSystem, now: int)
    requires p != [] && WellFormed(node) && UpToDate(node, p, fs)
    requires DirAt(node, []) ==> p in fs
    ensures CopyNode(node, p, fs, now) == Ok(fs)
    decreases node, 1
  {
    assert p + [] == p;
    match node
    case File(data, mtime) =>
      assert FileAt(node, []);
    case Dir(entries) =>
      CopyEntriesUnchanged(entries, p, fs, now);
  }

  lemma {:induction false} CopyEntriesUnchanged(entries: seq<Entry>, dir: Path, fs: FileSystem, now: int)
    requires WellFormed(Dir(entries)) && UpToDate(Dir(entries), dir, fs)
    ensures CopyEntries(entries, dir, fs, now) == Ok(fs)
    decreases entries, 0
  {
    if entries != [] {
      var e, rest := entries[0], entries[1..];
      assert entries == [e] + rest;
      WellFormedCons(e, rest);
      UpToDateChild(e, rest, dir, fs);
      CopyNodeUnchanged(e.node, dir + [e.name], fs, now);
      CopyEntriesUnchanged(rest, dir, fs, now);
    }
  }

  /** Once a copy has succeeded at a time later than every template file's,
      copying again, at any time, changes nothing at all. */
  lemma CopyTwiceChangesNothing(src: Tree, target: Path, fs: FileSystem, now1: int, now2: int)
    requires WellFormed(src) && CopyDirectory(Some(src), target, fs, now1).Ok?
    requires forall rel :: FileAt(src, rel) ==> Find(src, rel).value.mtime < now1
    ensures var fs1 := CopyDirectory(Some(src), target, fs, now1).value;
      CopyDirectory(Some(src), target, fs1, now2) == Ok(fs1)
  {
    CopyDirectoryMeetsSpec(src, target, fs, now1);
    CopyEntriesUnchanged(src.entries, target, CopyDirectory(Some(src), target, fs, now1).value, now2);
  }
}
