/**
 * The download history and the data directory of the web front end
 * (`website/lib/archive-store.ts`): the history is a JSON array of download
 * records kept newest first in `history.json`, capped at 200 entries, next
 * to the yt-dlp archive file and the downloads directory.
 *
 * Every operation here is asynchronous in the original and rejects when a
 * file-system call throws; a method reports that as `ok == false`, with the
 * disk left as the calls made so far have left it.
 */
module ArchiveStore {
  import opened Wrappers
  import opened Strings
  import opened PosixPath
  import opened FileSystem
  import opened Sorting
  import YtDlp

  datatype Status = Completed | Failed

  datatype DownloadRecord = DownloadRecord(
    id: string,
    createdAt: string,
    url: string,
    mode: YtDlp.DownloadMode,
    includePlaylist: bool,
    status: Status,
    files: seq<string>,
    logTail: string)

  /** The sort key of the history. */
  function CreatedAt(r: DownloadRecord): string {
    r.createdAt
  }

  /** The most records the history file keeps. */
  const HistoryLimit := 200

  /** The content of an empty history file. */
  const EmptyHistory := "[]\n"

  // ---------------------------------------------------------------- JSON

  /** What `JSON.parse` makes of the history file. */
  datatype Parsed = NotJson | NotArray | RecordArray(records: seq<DownloadRecord>)

  /** `JSON.parse` and `JSON.stringify(_, null, 2)` on the history, left abstract. */
  datatype Codec = Codec(decode: string -> Parsed, encode: seq<DownloadRecord> -> string)

  /** What JSON guarantees about the two: a stringified array, with its newline, parses back, and so does "[]\n". */
  ghost predicate CodecValid(c: Codec) {
    && c.decode(EmptyHistory) == RecordArray([])
    && forall rs :: c.decode(c.encode(rs) + "\n") == RecordArray(rs)
  }

  // ---------------------------------------------------------------- the data directory

  /** The result of a sequence of file-system calls: whether all succeeded, and the disk afterwards. */
  datatype Outcome = Outcome(ok: bool, tree: Tree)

  /** `u` still has every entry of `t`, unchanged: nothing was deleted or overwritten. */
  ghost predicate Keeps(t: Tree, u: Tree) {
    forall q :: q in t ==> q in u && u[q] == t[q]
  }

  /** The layout `ensureDataStorage` sets up: both directories, and something at both file paths. */
  ghost predicate LayoutReady(t: Tree, cwd: Path, paths: YtDlp.DataPaths)
    requires IsCanonical(cwd)
  {
    && IsDir(t, ResolveFrom(cwd, paths.root))
    && IsDir(t, ResolveFrom(cwd, paths.downloadsDir))
    && Exists(t, ResolveFrom(cwd, paths.archiveFile))
    && Exists(t, ResolveFrom(cwd, paths.historyFile))
  }

  /** `fileExists` followed, when nothing is there, by `fs.writeFile`. */
  function CreateIfMissing(t: Tree, p: Path, content: string): (r: Outcome)
    requires WellFormed(t) && IsCanonical(p)
    ensures WellFormed(r.tree) && Keeps(t, r.tree)
    ensures r.ok <==> Exists(t, p) || (IsDir(t, Parent(p)))
    ensures r.ok ==> Exists(r.tree, p)
    ensures forall q :: IsDir(t, q) <==> IsDir(r.tree, q)
    ensures forall q :: q != p ==> (q in r.tree <==> q in t)
    ensures !Exists(t, p) && r.ok ==> r.tree[p] == File(content)
  {
    if Exists(t, p) then Outcome(true, t)
    else
      match WriteTree(t, p, content)
      case None => Outcome(false, t)
      case Some(u) => Outcome(true, u)
  }

  /** The file-system effect of `ensureDataStorage`. */
  function EnsureLayout(t: Tree, cwd: Path, paths: YtDlp.DataPaths): (r: Outcome)
    requires WellFormed(t) && IsCanonical(cwd)
    ensures WellFormed(r.tree) && Keeps(t, r.tree)
    ensures r.ok ==> LayoutReady(r.tree, cwd, paths)
  {
    match MakeDirs(t, ResolveFrom(cwd, paths.root))
    case None => Outcome(false, t)
    case Some(t1) =>
      match MakeDirs(t1, ResolveFrom(cwd, paths.downloadsDir))
      case None => Outcome(false, t1)
      case Some(t2) =>
        var t3 := CreateIfMissing(t2, ResolveFrom(cwd, paths.archiveFile), "");
        if !t3.ok then t3
        else CreateIfMissing(t3.tree, ResolveFrom(cwd, paths.historyFile), EmptyHistory)
  }

  /** On a disk that already has the layout, `ensureDataStorage` changes nothing. */
  lemma EnsureLayoutIdempotent(t: Tree, cwd: Path, paths: YtDlp.DataPaths)
    requires WellFormed(t) && IsCanonical(cwd) && LayoutReady(t, cwd, paths)
    ensures EnsureLayout(t, cwd, paths) == Outcome(true, t)
  {
    MakeDirsExisting(t, ResolveFrom(cwd, paths.root));
    MakeDirsExisting(t, ResolveFrom(cwd, paths.downloadsDir));
  }

  /** `mkdir -p` adds nothing off its own path. */
  lemma MakeDirsSkips(t: Tree, p: Path, q: Path)
    requires WellFormed(t) && IsCanonical(p) && MakeDirs(t, p).Some?
    requires q !in t && (|p| < |q| || p[..|q|] != q)
    ensures q !in MakeDirs(t, p).value
  {
    MakeDirsAddsAlongPath(t, p);
  }

  /** The two `mkdir -p` calls of `ensureDataStorage` add nothing beside the downloads directory. */
  lemma LayoutDirsSkip(t: Tree, base: Path, name: string)
    requires WellFormed(t) && IsCanonical(base) && IsCanonical(base + [name]) && name != YtDlp.DownloadsName
    requires IsCanonical(base + [YtDlp.DownloadsName])
    requires base + [name] !in t && MakeDirs(t, base).Some?
    requires MakeDirs(MakeDirs(t, base).value, base + [YtDlp.DownloadsName]).Some?
    ensures base + [name] !in MakeDirs(MakeDirs(t, base).value, base + [YtDlp.DownloadsName]).value
  {
    var q, downloads := base + [name], base + [YtDlp.DownloadsName];
    assert q[|base|] != downloads[|base|];
    MakeDirsSkips(t, base, q);
    MakeDirsSkips(MakeDirs(t, base).value, downloads, q);
  }

  /**
   * On the layout of `getDataPaths`, a missing archive file is created empty
   * and a missing history file is created holding an empty array.
   */
  lemma EnsureLayoutCreatesEmptyFiles(t: Tree, cwd: Path, root: string)
    requires WellFormed(t) && IsCanonical(cwd)
    ensures var paths := YtDlp.GetDataPaths(root);
      var r := EnsureLayout(t, cwd, paths);
      var archive := ResolveFrom(cwd, paths.archiveFile);
      var history := ResolveFrom(cwd, paths.historyFile);
      && (r.ok && !Exists(t, archive) ==> r.tree[archive] == File(""))
      && (r.ok && !Exists(t, history) ==> r.tree[history] == File(EmptyHistory))
  {
    var base := ResolveFrom(cwd, root);
    YtDlp.DataPathsAreChildren(cwd, root);
    var archive, history := base + [YtDlp.ArchiveName], base + [YtDlp.HistoryName];
    assert archive[|base|] == YtDlp.ArchiveName && history[|base|] == YtDlp.HistoryName;
    if EnsureLayout(t, cwd, YtDlp.GetDataPaths(root)).ok {
      if !Exists(t, archive) {
        LayoutDirsSkip(t, base, YtDlp.ArchiveName);
      }
      if !Exists(t, history) {
        LayoutDirsSkip(t, base, YtDlp.HistoryName);
      }
    }
  }

  // ---------------------------------------------------------------- the history

  /** What `readHistory` returns for the text of the history file. */
  function StoredHistory(c: Codec, raw: string): (h: seq<DownloadRecord>)
    ensures SortedBy(h, CreatedAt, true)
    ensures c.decode(raw).RecordArray? ==> multiset(h) == multiset(c.decode(raw).records)
    ensures !c.decode(raw).RecordArray? ==> h == []
  {
    match c.decode(raw)
    case RecordArray(rs) => SortByKey(rs, CreatedAt, true)
    case _ => []
  }

  /** Records that share a `createdAt` read back in the order the file stores them. */
  lemma StoredHistoryStable(c: Codec, raw: string, t: string)
    requires c.decode(raw).RecordArray?
    ensures WithKey(StoredHistory(c, raw), CreatedAt, t) == WithKey(c.decode(raw).records, CreatedAt, t)
  {
    SortStable(c.decode(raw).records, CreatedAt, true, t);
  }

  /** A newest-first list written to the history file reads back as it was. */
  lemma ReadBack(c: Codec, h: seq<DownloadRecord>)
    requires CodecValid(c) && SortedBy(h, CreatedAt, true)
    ensures StoredHistory(c, c.encode(h) + "\n") == h
  {
    SortSortedIsIdentity(h, CreatedAt, true);
  }

  /** A cleared history reads back empty. */
  lemma ClearedReadsEmpty(c: Codec)
    requires CodecValid(c)
    ensures StoredHistory(c, EmptyHistory) == []
  {
  }

  /** `unshift` then `slice(0, 200)`: the new record first, then as many of the old ones as fit. */
  function Appended(h: seq<DownloadRecord>, record: DownloadRecord): (r: seq<DownloadRecord>)
    ensures |r| == if |h| < HistoryLimit then |h| + 1 else HistoryLimit
    ensures r[0] == record && r[1..] == h[..|r| - 1]
  {
    var all := [record] + h;
    all[..if |all| < HistoryLimit then |all| else HistoryLimit]
  }

  /** `record` is at least as new as everything in `h`. */
  predicate Newest(h: seq<DownloadRecord>, record: DownloadRecord) {
    forall k :: 0 <= k < |h| ==> LexLe(h[k].createdAt, record.createdAt)
  }

  /** Prepending the newest record to a newest-first history keeps it newest first. */
  lemma AppendedSorted(h: seq<DownloadRecord>, record: DownloadRecord)
    requires SortedBy(h, CreatedAt, true) && Newest(h, record)
    ensures SortedBy(Appended(h, record), CreatedAt, true)
  {
    var r := Appended(h, record);
    forall i, j | 0 <= i < j < |r| ensures InOrder(CreatedAt(r[i]), CreatedAt(r[j]), true) {
      assert r[j] == h[j - 1];
      if i > 0 {
        assert r[i] == h[i - 1];
      }
    }
  }

  /** A record appended to the history is read back first, ahead of the history it was added to. */
  lemma AppendThenRead(c: Codec, h: seq<DownloadRecord>, record: DownloadRecord)
    requires CodecValid(c) && SortedBy(h, CreatedAt, true) && Newest(h, record)
    ensures StoredHistory(c, c.encode(Appended(h, record)) + "\n") == Appended(h, record)
  {
    AppendedSorted(h, record);
    ReadBack(c, Appended(h, record));
  }

  /** `findIndex` on the record id: the first record carrying it. */
  function FindRecord(h: seq<DownloadRecord>, id: string): (r: Option<nat>)
    ensures r.Some? ==> r.value < |h| && h[r.value].id == id
    ensures r.Some? ==> forall k :: 0 <= k < r.value ==> h[k].id != id
    ensures r.None? <==> forall k :: 0 <= k < |h| ==> h[k].id != id
    decreases |h|
  {
    if h == [] then None
    else if h[0].id == id then Some(0)
    else
      match FindRecord(h[1..], id)
      case None => None
      case Some(i) => Some(i + 1)
  }

  /** `splice(i, 1)`: the history without its `i`-th record. */
  function RemoveAt(h: seq<DownloadRecord>, i: nat): (r: seq<DownloadRecord>)
    requires i < |h|
    ensures |r| == |h| - 1
    ensures forall k :: 0 <= k < i ==> r[k] == h[k]
    ensures forall k :: i <= k < |r| ==> r[k] == h[k + 1]
    ensures multiset(r) == multiset(h) - multiset{h[i]}
  {
    assert h == h[..i] + [h[i]] + h[i + 1..];
    h[..i] + h[i + 1..]
  }

  /** Removing a record keeps the others newest first. */
  lemma RemoveAtSorted(h: seq<DownloadRecord>, i: nat)
    requires i < |h| && SortedBy(h, CreatedAt, true)
    ensures SortedBy(RemoveAt(h, i), CreatedAt, true)
  {
    var r := RemoveAt(h, i);
    forall a, b | 0 <= a < b < |r| ensures InOrder(CreatedAt(r[a]), CreatedAt(r[b]), true) {
      var a', b' := if a < i then a else a + 1, if b < i then b else b + 1;
      assert r[a] == h[a'] && r[b] == h[b'];
    }
  }

  /** After a deletion the history reads back without the deleted record and otherwise in order. */
  lemma DeleteThenRead(c: Codec, h: seq<DownloadRecord>, id: string)
    requires CodecValid(c) && SortedBy(h, CreatedAt, true) && FindRecord(h, id).Some?
    ensures var i := FindRecord(h, id).value;
      StoredHistory(c, c.encode(RemoveAt(h, i)) + "\n") == RemoveAt(h, i)
  {
    var i := FindRecord(h, id).value;
    RemoveAtSorted(h, i);
    ReadBack(c, RemoveAt(h, i));
  }

  /** Rewriting an existing file keeps the layout, so the next `ensureDataStorage` changes nothing. */
  lemma RewriteKeepsLayout(t: Tree, cwd: Path, paths: YtDlp.DataPaths, file: Path, content: string)
    requires WellFormed(t) && IsCanonical(cwd) && LayoutReady(t, cwd, paths) && IsFile(t, file)
    ensures WellFormed(t[file := File(content)])
    ensures EnsureLayout(t[file := File(content)], cwd, paths) == Outcome(true, t[file := File(content)])
  {
    assert IsDir(t, Parent(file));
    var t' := WriteTree(t, file, content).value;
    assert LayoutReady(t', cwd, paths);
    EnsureLayoutIdempotent(t', cwd, paths);
  }

  /**
   * On the disk: once `appendHistory` has written the newest record, the next
   * `readHistory` changes nothing and returns the appended history.
   */
  lemma AppendThenReadHistory(t: Tree, cwd: Path, paths: YtDlp.DataPaths, c: Codec, record: DownloadRecord)
    requires WellFormed(t) && IsCanonical(cwd) && CodecValid(c)
    requires var e := EnsureLayout(t, cwd, paths);
      var file := ResolveFrom(cwd, paths.historyFile);
      e.ok && IsFile(e.tree, file) && Newest(StoredHistory(c, e.tree[file].content), record)
    ensures var e := EnsureLayout(t, cwd, paths);
      var file := ResolveFrom(cwd, paths.historyFile);
      var appended := Appended(StoredHistory(c, e.tree[file].content), record);
      var t' := e.tree[file := File(c.encode(appended) + "\n")];
      && WellFormed(t')
      && EnsureLayout(t', cwd, paths) == Outcome(true, t')
      && StoredHistory(c, t'[file].content) == appended
  {
    var e := EnsureLayout(t, cwd, paths);
    var file := ResolveFrom(cwd, paths.historyFile);
    var h := StoredHistory(c, e.tree[file].content);
    RewriteKeepsLayout(e.tree, cwd, paths, file, c.encode(Appended(h, record)) + "\n");
    AppendThenRead(c, h, record);
  }

  // ---------------------------------------------------------------- deleting files

  /** The security check of `deleteRecord`: the resolved file lies under the resolved downloads directory. */
  predicate InsideDownloads(cwd: Path, downloadsDir: string, file: string)
    requires IsCanonical(cwd)
  {
    StartsWith(Render(Resolve(cwd, downloadsDir, file)), Render(ResolveFrom(cwd, downloadsDir)) + "/")
  }

  /** The paths `deleteRecord` tries to unlink for a record's files. */
  function Targets(cwd: Path, downloadsDir: string, files: seq<string>): set<Path>
    requires IsCanonical(cwd)
  {
    set f | f in files && InsideDownloads(cwd, downloadsDir, f) :: Resolve(cwd, downloadsDir, f)
  }

  /** The check admits exactly the paths strictly below the downloads directory (never the root itself). */
  lemma TargetsInside(cwd: Path, downloadsDir: string, files: seq<string>)
    requires IsCanonical(cwd)
    ensures forall p :: p in Targets(cwd, downloadsDir, files) ==>
      StrictlyBelow(ResolveFrom(cwd, downloadsDir), p)
  {
    forall f | f in files && InsideDownloads(cwd, downloadsDir, f)
      ensures StrictlyBelow(ResolveFrom(cwd, downloadsDir), Resolve(cwd, downloadsDir, f))
    {
      RenderPrefix(ResolveFrom(cwd, downloadsDir), Resolve(cwd, downloadsDir, f));
    }
  }

  /** Every file name the yt-dlp output parser records passes the check, unless downloads is "/" itself. */
  lemma RecordedFilesPass(cwd: Path, raw: string, downloadsDir: string)
    requires IsCanonical(cwd) && ResolveFrom(cwd, downloadsDir) != []
    requires YtDlp.NormalizeDownloadedPath(cwd, raw, downloadsDir).Some?
    ensures InsideDownloads(cwd, downloadsDir, YtDlp.NormalizeDownloadedPath(cwd, raw, downloadsDir).value)
  {
    var s := YtDlp.NormalizeDownloadedPath(cwd, raw, downloadsDir).value;
    YtDlp.NormalizedIsSafe(cwd, raw, downloadsDir);
    RenderPrefix(ResolveFrom(cwd, downloadsDir), Resolve(cwd, downloadsDir, s));
  }

  /** The disk after unlinking the targets: the files among them are gone, everything else stays. */
  ghost function AfterUnlink(t: Tree, targets: set<Path>): (u: Tree)
    ensures Keeps(u, t)
  {
    map p | p in t && !(p in targets && IsFile(t, p)) :: t[p]
  }

  /** Unlinking leaves the tree well formed, and removes only files among the targets. */
  lemma AfterUnlinkSafe(t: Tree, targets: set<Path>)
    requires WellFormed(t)
    ensures WellFormed(AfterUnlink(t, targets))
    ensures forall p :: p in t && p !in AfterUnlink(t, targets) ==> IsFile(t, p) && p in targets
  {
    var u := AfterUnlink(t, targets);
    forall p | p in u && p != [] ensures IsDir(u, Parent(p)) {
      assert IsDir(t, Parent(p));
    }
  }

  /** What `deleteRecord` removes from the disk: only files, and only strictly inside the downloads directory. */
  lemma UnlinkStaysInside(t: Tree, cwd: Path, downloadsDir: string, files: seq<string>)
    requires WellFormed(t) && IsCanonical(cwd)
    ensures forall p :: p in t && p !in AfterUnlink(t, Targets(cwd, downloadsDir, files)) ==>
      IsFile(t, p) && StrictlyBelow(ResolveFrom(cwd, downloadsDir), p)
  {
    AfterUnlinkSafe(t, Targets(cwd, downloadsDir, files));
    TargetsInside(cwd, downloadsDir, files);
  }

  /** After the unlinks the history file can still be written: its directory is still there. */
  lemma WriteAfterUnlink(t: Tree, targets: set<Path>, file: Path, content: string)
    requires WellFormed(t) && IsFile(t, file)
    ensures WellFormed(AfterUnlink(t, targets))
    ensures WriteTree(AfterUnlink(t, targets), file, content).Some?
  {
    AfterUnlinkSafe(t, targets);
    assert IsDir(t, Parent(file));
  }

  /** The targets of one more file. */
  lemma TargetsStep(cwd: Path, downloadsDir: string, files: seq<string>, i: nat)
    requires IsCanonical(cwd) && i < |files|
    ensures Targets(cwd, downloadsDir, files[..i + 1]) ==
      Targets(cwd, downloadsDir, files[..i])
      + (if InsideDownloads(cwd, downloadsDir, files[i]) then {Resolve(cwd, downloadsDir, files[i])} else {})
  {
    assert files[..i + 1] == files[..i] + [files[i]];
  }

  lemma AfterUnlinkStep(t: Tree, targets: set<Path>, p: Path)
    ensures var u := AfterUnlink(t, targets);
      AfterUnlink(t, targets + {p}) == if IsFile(u, p) then u - {p} else u
  {
  }

  // ---------------------------------------------------------------- the operations

  /** `ensureDataStorage`: create the data root, the downloads directory and the two files, keeping what is there. */
  method EnsureDataStorage(disk: Disk, paths: YtDlp.DataPaths) returns (ok: bool)
    requires disk.Valid()
    modifies disk
    ensures disk.Valid()
    ensures var e := EnsureLayout(old(disk.tree), disk.cwd, paths);
      ok == e.ok && disk.tree == e.tree
  {
    ok := disk.Mkdir(paths.root);
    if !ok {
      return;
    }
    ok := disk.Mkdir(paths.downloadsDir);
    if !ok {
      return;
    }
    var present := disk.Access(paths.archiveFile);
    if !present {
      ok := disk.WriteFile(paths.archiveFile, "");
      if !ok {
        return;
      }
    }
    present := disk.Access(paths.historyFile);
    if !present {
      ok := disk.WriteFile(paths.historyFile, EmptyHistory);
    }
  }

  /** `readHistory`: the records of the history file, newest first; an unreadable or non-array file gives none. */
  method ReadHistory(disk: Disk, paths: YtDlp.DataPaths, codec: Codec) returns (ok: bool, history: seq<DownloadRecord>)
    requires disk.Valid()
    modifies disk
    ensures disk.Valid()
    ensures var e := EnsureLayout(old(disk.tree), disk.cwd, paths);
      var file := disk.At(paths.historyFile);
      && disk.tree == e.tree
      && (ok <==> e.ok && IsFile(e.tree, file))
      && (ok ==> history == StoredHistory(codec, e.tree[file].content))
  {
    history := [];
    ok := EnsureDataStorage(disk, paths);
    if !ok {
      return;
    }
    var raw := disk.ReadFile(paths.historyFile);
    if raw.None? {
      ok := false;
      return;
    }
    match codec.decode(raw.value)
    case RecordArray(records) =>
      history := SortByKey(records, CreatedAt, true);
    case _ =>
      history := [];
  }

  /** `clearHistory`: the history file is reset to an empty array. */
  method ClearHistory(disk: Disk, paths: YtDlp.DataPaths) returns (ok: bool)
    requires disk.Valid()
    modifies disk
    ensures disk.Valid()
    ensures var e := EnsureLayout(old(disk.tree), disk.cwd, paths);
      var file := disk.At(paths.historyFile);
      && (ok <==> e.ok && !IsDir(e.tree, file))
      && disk.tree == if ok then e.tree[file := File(EmptyHistory)] else e.tree
  {
    ok := EnsureDataStorage(disk, paths);
    if !ok {
      return;
    }
    ok := disk.WriteFile(paths.historyFile, EmptyHistory);
  }

  /** `appendHistory`: the record goes in front of the stored history, which keeps at most 200 records. */
  method AppendHistory(disk: Disk, paths: YtDlp.DataPaths, codec: Codec, record: DownloadRecord) returns (ok: bool)
    requires disk.Valid()
    modifies disk
    ensures disk.Valid()
    ensures var e := EnsureLayout(old(disk.tree), disk.cwd, paths);
      var file := disk.At(paths.historyFile);
      && (ok <==> e.ok && IsFile(e.tree, file))
      && (ok ==> disk.tree == e.tree[file := File(codec.encode(Appended(StoredHistory(codec, e.tree[file].content), record)) + "\n")])
      && (!ok ==> disk.tree == e.tree)
  {
    var history;
    ok, history := ReadHistory(disk, paths, codec);
    if !ok {
      return;
    }
    var limited := Appended(history, record);
    ok := disk.WriteFile(paths.historyFile, codec.encode(limited) + "\n");
  }

  /** `getStorageUsage`: the total size of the files under the downloads directory. */
  method GetStorageUsage(disk: Disk, paths: YtDlp.DataPaths) returns (ok: bool, usage: nat)
    requires disk.Valid()
    modifies disk
    ensures disk.Valid()
    ensures var e := EnsureLayout(old(disk.tree), disk.cwd, paths);
      && ok == e.ok && disk.tree == e.tree
      && (ok ==> usage == DirectorySize(e.tree, disk.At(paths.downloadsDir)))
  {
    usage := 0;
    ok := EnsureDataStorage(disk, paths);
    if !ok {
      return;
    }
    usage := CalculateDirectorySize(disk, paths.downloadsDir);
  }

  /** The file loop of `deleteRecord`: unlink each file that passes the check, ignoring failures. */
  method UnlinkRecordFiles(disk: Disk, downloadsDir: string, files: seq<string>)
    requires disk.Valid()
    modifies disk
    ensures disk.Valid()
    ensures disk.tree == AfterUnlink(old(disk.tree), Targets(disk.cwd, downloadsDir, files))
  {
    ghost var t0 := disk.tree;
    for i := 0 to |files|
      invariant disk.Valid()
      invariant disk.tree == AfterUnlink(t0, Targets(disk.cwd, downloadsDir, files[..i]))
    {
      var target := Resolve(disk.cwd, downloadsDir, files[i]);
      var absolutePath := Render(target);
      var resolvedDownloadsDir := Render(ResolveFrom(disk.cwd, downloadsDir));
      TargetsStep(disk.cwd, downloadsDir, files, i);
      if StartsWith(absolutePath, resolvedDownloadsDir + "/") {
        ResolveRender(disk.cwd, target);
        AfterUnlinkStep(t0, Targets(disk.cwd, downloadsDir, files[..i]), target);
        var _ := disk.Unlink(absolutePath);
      }
    }
    assert files[..|files|] == files;
  }

  /**
   * `deleteRecord`: find the first record with the id; if there is one, unlink
   * its files that lie inside the downloads directory, drop the record and
   * write the history back.
   */
  method DeleteRecord(disk: Disk, paths: YtDlp.DataPaths, codec: Codec, id: string) returns (ok: bool, deleted: bool)
    requires disk.Valid()
    modifies disk
    ensures disk.Valid()
    ensures var e := EnsureLayout(old(disk.tree), disk.cwd, paths);
      var file := disk.At(paths.historyFile);
      var read := e.ok && IsFile(e.tree, file);
      var h := if read then StoredHistory(codec, e.tree[file].content) else [];
      var i := FindRecord(h, id);
      && (!ok ==> disk.tree == e.tree)
      && (ok <==> read)
      && (deleted ==> ok && read && i.Some?)
      && (ok && !deleted ==> read && i.None? && disk.tree == e.tree)
      && (read && i.Some? ==> deleted)
      && (deleted ==>
            var u := AfterUnlink(e.tree, Targets(disk.cwd, paths.downloadsDir, h[i.value].files));
            disk.tree == u[file := File(codec.encode(RemoveAt(h, i.value)) + "\n")])
  {
    deleted := false;
    var history;
    ok, history := ReadHistory(disk, paths, codec);
    if !ok {
      return;
    }
    var recordIndex := FindRecord(history, id);
    if recordIndex.None? {
      return;
    }
    var record := history[recordIndex.value];
    ghost var t := disk.tree;
    UnlinkRecordFiles(disk, paths.downloadsDir, record.files);
    var remaining := RemoveAt(history, recordIndex.value);
    WriteAfterUnlink(t, Targets(disk.cwd, paths.downloadsDir, record.files), disk.At(paths.historyFile), codec.encode(remaining) + "\n");
    ok := disk.WriteFile(paths.historyFile, codec.encode(remaining) + "\n");
    deleted := true;
  }
}
