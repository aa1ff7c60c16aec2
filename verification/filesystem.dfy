/**
 * The part of the disk the archive store touches, as Node's `fs/promises`
 * sees it: a map from resolved paths to files and directories. The root "/"
 * is always a directory and is not stored. A call that Node would reject
 * (ENOENT, ENOTDIR, EISDIR, EEXIST) is reported as a failure and leaves the
 * tree as it was.
 */
module FileSystem {
  import opened Wrappers
  import opened PosixPath

  datatype Node = File(content: string) | Dir

  type Tree = map<Path, Node>

  function Parent(p: Path): Path
    requires p != []
  {
    p[..|p| - 1]
  }

  predicate IsDir(t: Tree, p: Path) {
    p == [] || (p in t && t[p].Dir?)
  }

  predicate IsFile(t: Tree, p: Path) {
    p in t && t[p].File?
  }

  /** `fs.access`: something exists at `p`. */
  predicate Exists(t: Tree, p: Path) {
    p == [] || p in t
  }

  /**
   * Every entry has a canonical path and sits in a directory. (The second
   * half fires only on a mention of `Parent(p)`, so that the solver does not
   * climb from an entry to all of its ancestors on its own.)
   */
  predicate WellFormed(t: Tree) {
    && (forall p :: p in t ==> IsCanonical(p) && p != [])
    && (forall p {:trigger Parent(p)} :: p in t && p != [] ==> IsDir(t, Parent(p)))
  }

  // ---------------------------------------------------------------- operations on trees

  /**
   * `fs.mkdir(p, { recursive: true })`: creates the missing directories along
   * `p`; fails, creating nothing, when a file stands anywhere on the way.
   */
  function MakeDirs(t: Tree, p: Path): (r: Option<Tree>)
    requires WellFormed(t) && IsCanonical(p)
    ensures r.Some? ==> WellFormed(r.value) && IsDir(r.value, p)
    ensures r.Some? ==> forall q :: q in t ==> q in r.value && r.value[q] == t[q]
    decreases |p|
  {
    if p == [] then Some(t)
    else
      match MakeDirs(t, Parent(p))
      case None => None
      case Some(t') =>
        if p in t' then (if t'[p].Dir? then Some(t') else None)
        else Some(t'[p := Dir])
  }

  /** The only entries `mkdir -p` adds are directories along the path. */
  lemma {:induction false} MakeDirsAddsAlongPath(t: Tree, p: Path)
    requires WellFormed(t) && IsCanonical(p) && MakeDirs(t, p).Some?
    ensures var t' := MakeDirs(t, p).value;
      forall q :: q in t' && q !in t ==> |q| <= |p| && q == p[..|q|] && t'[q] == Dir
    decreases |p|
  {
    if p != [] {
      MakeDirsAddsAlongPath(t, Parent(p));
      var t' := MakeDirs(t, p).value;
      forall q | q in t' && q !in t ensures |q| <= |p| && q == p[..|q|] {
        if q != p {
          assert Parent(p)[..|q|] == p[..|q|];
        }
      }
    }
  }

  /** `mkdir -p` on a directory that is already there changes nothing. */
  lemma {:induction false} MakeDirsExisting(t: Tree, p: Path)
    requires WellFormed(t) && IsCanonical(p) && IsDir(t, p)
    ensures MakeDirs(t, p) == Some(t)
    decreases |p|
  {
    if p != [] {
      assert IsDir(t, Parent(p));
      MakeDirsExisting(t, Parent(p));
    }
  }

  /** `fs.writeFile`: replaces or creates a file whose directory exists; fails on a directory. */
  function WriteTree(t: Tree, p: Path, content: string): (r: Option<Tree>)
    requires WellFormed(t) && IsCanonical(p)
    ensures r.Some? ==> WellFormed(r.value)
    ensures r.Some? <==> p != [] && IsDir(t, Parent(p)) && !IsDir(t, p)
  {
    if p == [] || !IsDir(t, Parent(p)) || IsDir(t, p) then None
    else Some(t[p := File(content)])
  }

  /** `fs.unlink`: removes a file; fails on a directory or a missing entry. */
  function UnlinkTree(t: Tree, p: Path): (r: Option<Tree>)
    requires WellFormed(t)
    ensures r.Some? <==> IsFile(t, p)
    ensures r.Some? ==> WellFormed(r.value) && r.value == t - {p}
  {
    if IsFile(t, p) then Some(t - {p}) else None
  }

  /** The names in directory `dir`. */
  function ChildNames(t: Tree, dir: Path): set<string> {
    set q | q in t && |q| == |dir| + 1 && q[..|dir|] == dir :: q[|dir|]
  }

  /** The entries strictly below `q`. */
  function Below(t: Tree, q: Path): set<Path> {
    set p | p in t && |q| < |p| && p[..|q|] == q
  }

  /** The files at or below `q`. */
  function FilesAt(t: Tree, q: Path): set<Path> {
    set p | p in t && t[p].File? && |q| <= |p| && p[..|q|] == q
  }

  function FileSize(t: Tree, p: Path): nat {
    if IsFile(t, p) then |t[p].content| else 0
  }

  /** The total size of the files in `ps`. */
  ghost function SizeOf(t: Tree, ps: set<Path>): nat
    decreases |ps|
  {
    if ps == {} then 0
    else
      var p :| p in ps;
      FileSize(t, p) + SizeOf(t, ps - {p})
  }

  /** What `calculateDirectorySize` promises: the sizes of all files below a directory; 0 when it is not one. */
  ghost function DirectorySize(t: Tree, dir: Path): nat {
    if IsDir(t, dir) then SizeOf(t, FilesAt(t, dir)) else 0
  }

  // ---------------------------------------------------------------- lemmas

  /** A file can be taken out of the sum first. */
  lemma {:induction false} SizeOfRemove(t: Tree, ps: set<Path>, p: Path)
    requires p in ps
    ensures SizeOf(t, ps) == FileSize(t, p) + SizeOf(t, ps - {p})
    decreases |ps|
  {
    var q :| q in ps && SizeOf(t, ps) == FileSize(t, q) + SizeOf(t, ps - {q});
    if q != p {
      SizeOfRemove(t, ps - {q}, p);
      SizeOfRemove(t, ps - {p}, q);
      assert ps - {q} - {p} == ps - {p} - {q};
    }
  }

  /** Sizes of disjoint sets of files add up. */
  lemma {:induction false} SizeOfUnion(t: Tree, a: set<Path>, b: set<Path>)
    requires a !! b
    ensures SizeOf(t, a + b) == SizeOf(t, a) + SizeOf(t, b)
    decreases |a|
  {
    if a == {} {
      assert a + b == b;
    } else {
      var p :| p in a;
      SizeOfRemove(t, a, p);
      SizeOfRemove(t, a + b, p);
      assert (a + b) - {p} == (a - {p}) + b;
      SizeOfUnion(t, a - {p}, b);
    }
  }

  lemma SizeOfSingle(t: Tree, p: Path)
    ensures SizeOf(t, {p}) == FileSize(t, p)
  {
    SizeOfRemove(t, {p}, p);
    assert {p} - {p} == {};
  }

  /** In a well-formed tree every proper ancestor of an entry is a directory. */
  lemma {:induction false} AncestorsAreDirs(t: Tree, p: Path, k: nat)
    requires WellFormed(t) && p in t && k < |p|
    ensures IsDir(t, p[..k])
    decreases |p| - k
  {
    if k < |p| - 1 {
      AncestorsAreDirs(t, p, k + 1);
      assert p[..k + 1] in t;
      assert Parent(p[..k + 1]) == p[..k];
    } else {
      assert Parent(p) == p[..k];
    }
  }

  /** A file has nothing below it. */
  lemma FileHasNoDescendants(t: Tree, f: Path)
    requires WellFormed(t) && IsFile(t, f)
    ensures FilesAt(t, f) == {f}
  {
    forall p | p in t && |f| <= |p| && p[..|f|] == f ensures p == f {
      if |f| < |p| {
        AncestorsAreDirs(t, p, |f|);
      }
    }
  }

  /** A child's entries are strictly fewer than its parent's, which bounds the recursion. */
  lemma ChildSubtreeSmaller(t: Tree, dir: Path, name: string)
    requires dir + [name] in t
    ensures |Below(t, dir + [name])| < |Below(t, dir)|
  {
    var c := dir + [name];
    forall p | p in Below(t, c) ensures p in Below(t, dir) {
      assert p[..|dir|] == p[..|c|][..|dir|];
    }
    assert c[..|dir|] == dir;
    assert c in Below(t, dir);
    var a, b := Below(t, c), Below(t, dir);
    assert b == a + (b - a);
    assert |b| == |a| + |b - a|;
    assert c in b - a;
  }

  /** The files below `dir` whose first name below `dir` is in `names`. */
  function FilesUnder(t: Tree, dir: Path, names: set<string>): set<Path> {
    set p | p in FilesAt(t, dir) && |dir| < |p| && p[|dir|] in names
  }

  /** Handling one more directory entry adds exactly the files at or below it. */
  lemma FilesUnderStep(t: Tree, dir: Path, names: set<string>, name: string)
    requires name !in names
    ensures FilesUnder(t, dir, names + {name}) == FilesUnder(t, dir, names) + FilesAt(t, dir + [name])
    ensures FilesUnder(t, dir, names) !! FilesAt(t, dir + [name])
  {
    var c := dir + [name];
    forall p | p in FilesAt(t, c) ensures p in FilesUnder(t, dir, names + {name}) && p[|dir|] == name {
      assert p[..|dir|] == p[..|c|][..|dir|];
      assert p[|dir|] == p[..|c|][|dir|];
    }
    forall p | p in FilesUnder(t, dir, names + {name}) && p[|dir|] == name ensures p in FilesAt(t, c) {
      assert p[..|c|] == p[..|dir|] + [p[|dir|]];
    }
  }

  /** A directory entry that is not a directory is a file, and its size is all that lies at it. */
  lemma EntryFileSize(t: Tree, dir: Path, name: string)
    requires WellFormed(t) && dir + [name] in t && !IsDir(t, dir + [name])
    ensures IsFile(t, dir + [name])
    ensures SizeOf(t, FilesAt(t, dir + [name])) == FileSize(t, dir + [name])
  {
    FileHasNoDescendants(t, dir + [name]);
    SizeOfSingle(t, dir + [name]);
  }

  /** Counting one more entry adds the size of what lies at or below it. */
  lemma CountEntry(t: Tree, dir: Path, done: set<string>, name: string)
    requires name !in done
    ensures SizeOf(t, FilesUnder(t, dir, done + {name}))
      == SizeOf(t, FilesUnder(t, dir, done)) + SizeOf(t, FilesAt(t, dir + [name]))
  {
    FilesUnderStep(t, dir, done, name);
    SizeOfUnion(t, FilesUnder(t, dir, done), FilesAt(t, dir + [name]));
  }

  /** Once every entry of a directory is handled, all files below it are counted. */
  lemma FilesUnderAll(t: Tree, dir: Path)
    requires WellFormed(t) && IsDir(t, dir)
    ensures FilesUnder(t, dir, ChildNames(t, dir)) == FilesAt(t, dir)
  {
    forall p | p in FilesAt(t, dir) ensures p in FilesUnder(t, dir, ChildNames(t, dir)) {
      assert p[..|p|] == p;
      assert p != dir;
      var c := p[..|dir| + 1];
      if |dir| + 1 < |p| {
        AncestorsAreDirs(t, p, |dir| + 1);
      } else {
        assert c == p;
      }
      assert c[..|dir|] == dir && c[|dir|] == p[|dir|];
    }
  }

  // ---------------------------------------------------------------- the disk

  /** The mutable disk, with the process working directory that relative paths are taken from. */
  class Disk {
    var tree: Tree
    const cwd: Path

    ghost predicate Valid()
      reads this
    {
      IsCanonical(cwd) && WellFormed(tree)
    }

    constructor (cwd: Path, tree: Tree)
      requires IsCanonical(cwd) && WellFormed(tree)
      ensures Valid() && this.cwd == cwd && this.tree == tree
    {
      this.cwd := cwd;
      this.tree := tree;
    }

    /** Where a path string points. */
    function At(p: string): Path
      reads this
      requires IsCanonical(cwd)
    {
      ResolveFrom(cwd, p)
    }

    method Mkdir(p: string) returns (ok: bool)
      requires Valid()
      modifies this
      ensures Valid()
      ensures ok == MakeDirs(old(tree), At(p)).Some?
      ensures tree == if ok then MakeDirs(old(tree), At(p)).value else old(tree)
    {
      var r := MakeDirs(tree, At(p));
      ok := r.Some?;
      if ok {
        tree := r.value;
      }
    }

    method Access(p: string) returns (b: bool)
      requires Valid()
      ensures b == Exists(tree, At(p))
    {
      b := Exists(tree, At(p));
    }

    method WriteFile(p: string, content: string) returns (ok: bool)
      requires Valid()
      modifies this
      ensures Valid()
      ensures ok == WriteTree(old(tree), At(p), content).Some?
      ensures tree == if ok then old(tree)[At(p) := File(content)] else old(tree)
    {
      var r := WriteTree(tree, At(p), content);
      ok := r.Some?;
      if ok {
        tree := r.value;
      }
    }

    method ReadFile(p: string) returns (r: Option<string>)
      requires Valid()
      ensures r.Some? <==> IsFile(tree, At(p))
      ensures r.Some? ==> r.value == tree[At(p)].content
    {
      var at := At(p);
      if IsFile(tree, at) {
        r := Some(tree[at].content);
      } else {
        r := None;
      }
    }

    method Unlink(p: string) returns (ok: bool)
      requires Valid()
      modifies this
      ensures Valid()
      ensures ok == IsFile(old(tree), At(p))
      ensures tree == if ok then old(tree) - {At(p)} else old(tree)
    {
      var r := UnlinkTree(tree, At(p));
      ok := r.Some?;
      if ok {
        tree := r.value;
      }
    }

    /** `fs.readdir(p, { withFileTypes: true })`: each name with whether it is a directory. */
    method ReadDir(p: string) returns (r: Option<map<string, bool>>)
      requires Valid()
      ensures r.Some? <==> IsDir(tree, At(p))
      ensures r.Some? ==> r.value.Keys == ChildNames(tree, At(p))
      ensures r.Some? ==> forall name :: name in r.value ==> r.value[name] == IsDir(tree, At(p) + [name])
    {
      var dir := At(p);
      if IsDir(tree, dir) {
        r := Some(map name | name in ChildNames(tree, dir) :: IsDir(tree, dir + [name]));
      } else {
        r := None;
      }
    }

    /** `fs.stat(p).size` for a file; fails when there is no file. */
    method StatSize(p: string) returns (r: Option<nat>)
      requires Valid()
      ensures r.Some? <==> IsFile(tree, At(p))
      ensures r.Some? ==> r.value == FileSize(tree, At(p))
    {
      var at := At(p);
      if IsFile(tree, at) {
        r := Some(|tree[at].content|);
      } else {
        r := None;
      }
    }
  }

  /** The names a directory lists are proper names, so joining one to the directory names the child. */
  lemma ChildNamesAreNames(t: Tree, dir: Path, name: string)
    requires WellFormed(t) && name in ChildNames(t, dir)
    ensures IsName(name) && dir + [name] in t
  {
    var q :| q in t && |q| == |dir| + 1 && q[..|dir|] == dir && q[|dir|] == name;
    assert q == dir + [name];
  }

  /**
   * `calculateDirectorySize`: the total size of the files below `dirPath`;
   * 0 when the directory cannot be read.
   */
  method CalculateDirectorySize(disk: Disk, dirPath: string) returns (total: nat)
    requires disk.Valid()
    ensures total == DirectorySize(disk.tree, disk.At(dirPath))
    decreases |Below(disk.tree, disk.At(dirPath))|, 2
  {
    var entries := disk.ReadDir(dirPath);
    if entries.None? {
      return 0;
    }
    forall name | name in entries.value ensures disk.At(dirPath) + [name] in disk.tree {
      ChildNamesAreNames(disk.tree, disk.At(dirPath), name);
    }
    total := SumEntries(disk, dirPath, disk.At(dirPath), entries.value);
    FilesUnderAll(disk.tree, disk.At(dirPath));
  }

  /** The loop of `calculateDirectorySize`, over the entries in whatever order the directory lists them. */
  method SumEntries(disk: Disk, dirPath: string, ghost dir: Path, entries: map<string, bool>) returns (total: nat)
    requires disk.Valid() && dir == disk.At(dirPath)
    requires forall name :: name in entries ==> dir + [name] in disk.tree && entries[name] == IsDir(disk.tree, dir + [name])
    ensures total == SizeOf(disk.tree, FilesUnder(disk.tree, dir, entries.Keys))
    decreases |Below(disk.tree, dir)|, 1
  {
    total := 0;
    var pending := entries.Keys;
    ghost var done: set<string> := {};
    while pending != {}
      invariant pending + done == entries.Keys && pending !! done
      invariant total == SizeOf(disk.tree, FilesUnder(disk.tree, dir, done))
      decreases |pending|
    {
      var name :| name in pending;
      var size := EntrySize(disk, dirPath, dir, name, entries[name]);
      CountEntry(disk.tree, dir, done, name);
      total := total + size;
      done := done + {name};
      pending := pending - {name};
    }
  }

  /** One pass of the loop in `calculateDirectorySize`: what the entry `name` of `dirPath` adds. */
  method EntrySize(disk: Disk, dirPath: string, ghost dir: Path, name: string, isDirectory: bool) returns (size: nat)
    requires disk.Valid() && dir == disk.At(dirPath)
    requires dir + [name] in disk.tree && isDirectory == IsDir(disk.tree, dir + [name])
    ensures size == SizeOf(disk.tree, FilesAt(disk.tree, dir + [name]))
    decreases |Below(disk.tree, dir)|, 0
  {
    ghost var t := disk.tree;
    assert IsName(name) by { assert (dir + [name])[|dir|] == name; }
    var fullPath := JoinPaths(dirPath, name);
    JoinChild(disk.cwd, dirPath, name);
    size := 0;
    if isDirectory {
      ChildSubtreeSmaller(t, dir, name);
      size := CalculateDirectorySize(disk, fullPath);
    } else {
      var stat := disk.StatSize(fullPath);
      EntryFileSize(t, dir, name);
      if stat.Some? {
        size := stat.value;
      }
    }
  }
}
