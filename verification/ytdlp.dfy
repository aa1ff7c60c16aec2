/**
 * The downloader's helpers: URL validation, the storage layout under the data
 * root, the yt-dlp argument list, and the gate that turns the file paths
 * yt-dlp prints into paths relative to the downloads directory, refusing any
 * that lie outside it.
 */
module YtDlp {
  import opened Wrappers
  import opened Strings
  import opened PosixPath
  import Sorting

  // ---------------------------------------------------------------- URL validation

  /** What the URL parser reports about a URL: its scheme with the colon, and its serialization. */
  datatype Url = Url(protocol: string, href: string)

  predicate IsWebScheme(protocol: string) {
    protocol == "http:" || protocol == "https:"
  }

  const InvalidUrl := "Enter a valid URL."
  const UnsupportedScheme := "Only http/https URLs are supported."

  /**
   * `validateVideoUrl`: trims the input, parses it with the URL parser
   * `parse` (None when the parser throws) and accepts only http and https,
   * returning the serialized URL.
   */
  function ValidateVideoUrl(raw: string, parse: string -> Option<Url>): (r: Result<string>)
    ensures r.Err? ==> r.error == InvalidUrl || r.error == UnsupportedScheme
  {
    match parse(Trim(raw))
    case None => Err(InvalidUrl)
    case Some(u) =>
      if !IsWebScheme(u.protocol) then Err(UnsupportedScheme)
      else Ok(u.href)
  }

  /** The three outcomes of validation, each exactly characterised. */
  lemma ValidateVideoUrlOutcomes(raw: string, parse: string -> Option<Url>)
    ensures var r := ValidateVideoUrl(raw, parse);
      var p := parse(Trim(raw));
      && (r == Err(InvalidUrl) <==> p.None?)
      && (r == Err(UnsupportedScheme) <==> p.Some? && !IsWebScheme(p.value.protocol))
      && (r.Ok? <==> p.Some? && IsWebScheme(p.value.protocol))
      && (r.Ok? ==> r.value == p.value.href)
  {
    assert InvalidUrl != UnsupportedScheme by { assert InvalidUrl[0] != UnsupportedScheme[0]; }
  }

  /** Whitespace around the input never changes the verdict. */
  lemma ValidateIgnoresPadding(a: string, raw: string, b: string, parse: string -> Option<Url>)
    requires AllSpace(a) && AllSpace(b)
    ensures ValidateVideoUrl(a + raw + b, parse) == ValidateVideoUrl(raw, parse)
  {
    TrimIgnoresPadding(a, raw, b);
  }

  // ---------------------------------------------------------------- storage layout

  datatype DataPaths = DataPaths(root: string, downloadsDir: string, archiveFile: string, historyFile: string)

  const DownloadsName := "downloads"
  const ArchiveName := "download-archive.txt"
  const HistoryName := "history.json"

  /** `getDataPaths`: the layout under the data root. */
  function GetDataPaths(root: string): (p: DataPaths)
    ensures p.root == root
  {
    DataPaths(root, JoinPaths(root, DownloadsName), JoinPaths(root, ArchiveName), JoinPaths(root, HistoryName))
  }

  /** The downloads directory, the archive file and the history file are direct children of the root. */
  lemma DataPathsAreChildren(cwd: Path, root: string)
    requires IsCanonical(cwd)
    ensures var p := GetDataPaths(root);
      var r := ResolveFrom(cwd, root);
      && ResolveFrom(cwd, p.downloadsDir) == r + [DownloadsName]
      && ResolveFrom(cwd, p.archiveFile) == r + [ArchiveName]
      && ResolveFrom(cwd, p.historyFile) == r + [HistoryName]
  {
    JoinChild(cwd, root, DownloadsName);
    JoinChild(cwd, root, ArchiveName);
    JoinChild(cwd, root, HistoryName);
  }

  // ---------------------------------------------------------------- yt-dlp arguments

  datatype DownloadMode = Video | Audio

  datatype DownloadRequest = DownloadRequest(url: string, mode: DownloadMode, includePlaylist: bool, resolution: Option<string>)

  const OutputTemplate := "%(uploader|unknown_uploader)s/%(upload_date>%Y-%m-%d,unknown_date)s/%(title).160B [%(id)s].%(ext)s"

  /** The options every invocation starts with. */
  function FixedOptions(paths: DataPaths): (r: seq<string>)
    ensures |r| == 13
    ensures r[2] == "--download-archive" && r[3] == paths.archiveFile
    ensures r[4] == "--paths" && r[5] == paths.downloadsDir
  {
    ["--newline", "--no-warnings", "--download-archive", paths.archiveFile, "--paths", paths.downloadsDir,
     "--output", OutputTemplate, "--print", "after_move:filepath",
     "--write-info-json", "--write-description", "--write-thumbnail"]
  }

  const AudioOptions: seq<string> := ["--extract-audio", "--audio-format", "mp3", "--audio-quality", "0"]
  const DefaultFormat := "bv*+ba/b"

  /** A resolution caps the height when it is present, non-empty (JavaScript truthiness) and not "best". */
  predicate CapsHeight(resolution: Option<string>) {
    resolution.Some? && resolution.value != "" && resolution.value != "best"
  }

  function HeightCapped(h: string): string {
    "bestvideo[height<=" + h + "]+bestaudio/best[height<=" + h + "]"
  }

  /** The `--format` value in video mode; the height is the resolution with its first "p" removed. */
  function FormatSelector(resolution: Option<string>): string {
    if CapsHeight(resolution) then HeightCapped(RemoveFirst(resolution.value, 'p')) else DefaultFormat
  }

  /** "1080p" caps the height at 1080; a missing, empty or "best" resolution uses the default selector. */
  lemma FormatSelectorCases(digits: string)
    requires 'p' !in digits
    ensures FormatSelector(Some(digits + "p")) == HeightCapped(digits)
    ensures FormatSelector(None) == DefaultFormat
    ensures FormatSelector(Some("")) == DefaultFormat
    ensures FormatSelector(Some("best")) == DefaultFormat
  {
    assert (digits + "p")[|digits|] == 'p';
    assert digits + "p" != "best" by { assert "best"[3] == 't'; }
    RemoveFirstOfSuffix(digits, 'p');
  }

  /** A position that holds a value the caller chose (a path) rather than an option name. */
  predicate IsPathValue(i: int) {
    i == 3 || i == 5
  }

  /** `buildYtDlpArgs`: the ordered argument list for one download. */
  method BuildYtDlpArgs(request: DownloadRequest, paths: DataPaths) returns (args: seq<string>)
    ensures |args| == if request.mode == Audio then 20 else 17
    ensures args[..13] == FixedOptions(paths)
    ensures args[|args| - 1] == request.url
    ensures args[13] == if request.includePlaylist then "--yes-playlist" else "--no-playlist"
    ensures forall i :: 0 <= i < |args| - 1 && !IsPathValue(i) ==>
      (args[i] == "--yes-playlist" || args[i] == "--no-playlist" <==> i == 13)
    ensures request.mode == Audio ==> args[14..19] == AudioOptions
    ensures request.mode == Audio ==> forall i :: 0 <= i < |args| - 1 && !IsPathValue(i) ==> args[i] != "--format"
    ensures request.mode == Video ==> args[14] == "--format" && args[15] == FormatSelector(request.resolution)
  {
    args := FixedOptions(paths);
    if request.includePlaylist {
      args := args + ["--yes-playlist"];
    } else {
      args := args + ["--no-playlist"];
    }
    if request.mode == Audio {
      args := args + AudioOptions;
    } else {
      var res := request.resolution;
      if CapsHeight(res) {
        var height := RemoveFirst(res.value, 'p');
        args := args + ["--format", HeightCapped(height)];
      } else {
        args := args + ["--format", DefaultFormat];
      }
      assert args[15] == FormatSelector(request.resolution);
      assert args[15][0] == 'b';
    }
    args := args + [request.url];
  }

  // ---------------------------------------------------------------- path gate

  /** `isPathInsideRoot`: the relative path from `root` to `candidate` is non-empty, not absolute and does not start with "..". */
  predicate IsPathInsideRoot(cwd: Path, candidate: string, root: string)
    requires IsCanonical(cwd)
  {
    var rel := Relative(cwd, root, candidate);
    rel != "" && !StartsWith(rel, "..") && !IsAbsolute(rel)
  }

  /** The gate admits exactly the paths strictly below the root whose first name below it does not start with "..". */
  lemma IsPathInsideRootMeans(cwd: Path, candidate: string, root: string)
    requires IsCanonical(cwd)
    ensures var r := ResolveFrom(cwd, root);
      var c := ResolveFrom(cwd, candidate);
      IsPathInsideRoot(cwd, candidate, root) <==> StrictlyBelow(r, c) && !StartsWith(c[|r|], "..")
  {
    RelativeInside(ResolveFrom(cwd, root), ResolveFrom(cwd, candidate));
  }

  /** Lines yt-dlp prints that are not file paths. */
  predicate IsNoise(trimmed: string) {
    trimmed == "" || StartsWith(trimmed, "[") || StartsWith(trimmed, "WARNING:")
  }

  /** The absolute candidate for a printed path: normalized when absolute, resolved against the downloads directory otherwise. */
  function CandidateFor(cwd: Path, trimmed: string, downloadsDir: string): string
    requires IsCanonical(cwd)
  {
    if IsAbsolute(trimmed) then Normalize(trimmed) else Render(Resolve(cwd, downloadsDir, trimmed))
  }

  /** `normalizeDownloadedPath`: the path relative to the downloads directory, or None. */
  function NormalizeDownloadedPath(cwd: Path, raw: string, downloadsDir: string): (r: Option<string>)
    requires IsCanonical(cwd)
    ensures IsNoise(Trim(raw)) ==> r == None
  {
    var trimmed := Trim(raw);
    if IsNoise(trimmed) then None
    else
      var candidate := CandidateFor(cwd, trimmed, downloadsDir);
      if !IsPathInsideRoot(cwd, candidate, downloadsDir) then None
      else Some(Join(Split(Relative(cwd, downloadsDir, candidate), '/'), '/'))
  }

  /** Both branches of the candidate name the place `path.resolve(downloadsDir, trimmed)` names. */
  lemma CandidateResolves(cwd: Path, trimmed: string, downloadsDir: string)
    requires IsCanonical(cwd)
    ensures ResolveFrom(cwd, CandidateFor(cwd, trimmed, downloadsDir)) == Resolve(cwd, downloadsDir, trimmed)
  {
    if IsAbsolute(trimmed) {
      ResolveNormalize(cwd, trimmed);
    } else {
      ResolveRender(cwd, Resolve(cwd, downloadsDir, trimmed));
    }
  }

  /**
   * A printed line is accepted exactly when it is not noise and names a place
   * strictly inside the downloads directory whose first name there does not
   * start with "..".
   */
  lemma NormalizeAccepts(cwd: Path, raw: string, downloadsDir: string)
    requires IsCanonical(cwd)
    ensures var root := ResolveFrom(cwd, downloadsDir);
      var c := Resolve(cwd, downloadsDir, Trim(raw));
      NormalizeDownloadedPath(cwd, raw, downloadsDir).Some?
      <==> (!IsNoise(Trim(raw)) && StrictlyBelow(root, c) && !StartsWith(c[|root|], ".."))
  {
    var trimmed := Trim(raw);
    if !IsNoise(trimmed) {
      var candidate := CandidateFor(cwd, trimmed, downloadsDir);
      CandidateResolves(cwd, trimmed, downloadsDir);
      IsPathInsideRootMeans(cwd, candidate, downloadsDir);
    }
  }

  /**
   * An accepted path is non-empty, relative, does not climb out with "..",
   * and resolved against the downloads directory gives the candidate back.
   */
  lemma NormalizedIsSafe(cwd: Path, raw: string, downloadsDir: string)
    requires IsCanonical(cwd)
    requires NormalizeDownloadedPath(cwd, raw, downloadsDir).Some?
    ensures var s := NormalizeDownloadedPath(cwd, raw, downloadsDir).value;
      var c := Resolve(cwd, downloadsDir, Trim(raw));
      && s != "" && !StartsWith(s, "..") && !IsAbsolute(s)
      && Resolve(cwd, downloadsDir, s) == c
      && StrictlyBelow(ResolveFrom(cwd, downloadsDir), c)
  {
    var trimmed := Trim(raw);
    var candidate := CandidateFor(cwd, trimmed, downloadsDir);
    var rel := Relative(cwd, downloadsDir, candidate);
    JoinSplit(rel, '/');
    CandidateResolves(cwd, trimmed, downloadsDir);
    IsPathInsideRootMeans(cwd, candidate, downloadsDir);
    ResolveRelativeBelow(cwd, downloadsDir, ResolveFrom(cwd, candidate));
  }

  // ---------------------------------------------------------------- parsing yt-dlp output

  lemma NormalizedIsRelative(cwd: Path, raw: string, downloadsDir: string)
    requires IsCanonical(cwd)
    ensures var r := NormalizeDownloadedPath(cwd, raw, downloadsDir);
      r.Some? ==> r.value != "" && !StartsWith(r.value, "..") && !IsAbsolute(r.value)
  {
    if NormalizeDownloadedPath(cwd, raw, downloadsDir).Some? {
      NormalizedIsSafe(cwd, raw, downloadsDir);
    }
  }

  /**
   * The paths that `norm` accepts among `lines`, as a set; `norm` stands for
   * the normalization of one line against a fixed downloads directory.
   */
  ghost function Accepted(norm: string -> Option<string>, lines: seq<string>): set<string>
    decreases |lines|
  {
    if lines == [] then {}
    else
      var before := Accepted(norm, lines[..|lines| - 1]);
      match norm(lines[|lines| - 1])
      case Some(f) => before + {f}
      case None => before
  }

  /** A path is accepted exactly when some line normalizes to it. */
  lemma {:induction false} AcceptedMembers(norm: string -> Option<string>, lines: seq<string>, f: string)
    ensures f in Accepted(norm, lines) <==> exists line :: line in lines && norm(line) == Some(f)
    decreases |lines|
  {
    if lines != [] {
      var init := lines[..|lines| - 1];
      var last := lines[|lines| - 1];
      AcceptedMembers(norm, init, f);
      assert lines == init + [last];
      if exists line :: line in lines && norm(line) == Some(f) {
        var line :| line in lines && norm(line) == Some(f);
        if line != last {
          assert line in init;
        }
      }
    }
  }

  /** Lines that are a rearrangement of each other accept the same paths. */
  lemma AcceptedIgnoresOrder(norm: string -> Option<string>, a: seq<string>, b: seq<string>)
    requires multiset(a) == multiset(b)
    ensures Accepted(norm, a) == Accepted(norm, b)
  {
    forall f ensures f in Accepted(norm, a) <==> f in Accepted(norm, b) {
      AcceptedMembers(norm, a, f);
      AcceptedMembers(norm, b, f);
      assert forall line :: line in a <==> line in b by {
        forall line ensures line in a <==> line in b {
          assert line in a <==> line in multiset(a);
          assert line in b <==> line in multiset(b);
        }
      }
    }
  }

  /** `files` lists the set `s` in ascending order without repetitions. */
  ghost predicate IsListing(files: seq<string>, s: set<string>) {
    Sorting.SortedBy(files, Sorting.Id, false) && Sorting.Distinct(files)
      && forall f :: f in files <==> f in s
  }

  /** A set has only one listing, so the result does not depend on how it was built. */
  lemma ListingUnique(a: seq<string>, b: seq<string>, s: set<string>)
    requires IsListing(a, s) && IsListing(b, s)
    ensures a == b
  {
    Sorting.SortedListingUnique(a, b);
  }

  /**
   * The loop of `parseDownloadedFiles`: each line's normalized path, if any,
   * is added to a set, which remembers the order of first insertion.
   */
  method CollectPaths(cwd: Path, lines: seq<string>, downloadsDir: string) returns (order: seq<string>)
    requires IsCanonical(cwd)
    ensures Sorting.Distinct(order)
    ensures forall f :: f in order <==> f in Accepted(line => NormalizeDownloadedPath(cwd, line, downloadsDir), lines)
    ensures forall f :: f in order ==> f != "" && !StartsWith(f, "..") && !IsAbsolute(f)
  {
    var norm := line => NormalizeDownloadedPath(cwd, line, downloadsDir);
    var seen: set<string> := {};
    order := [];
    for i := 0 to |lines|
      invariant seen == Accepted(norm, lines[..i])
      invariant Sorting.Distinct(order)
      invariant forall f :: f in order <==> f in seen
      invariant forall f :: f in seen ==> f != "" && !StartsWith(f, "..") && !IsAbsolute(f)
    {
      assert lines[..i + 1][..i] == lines[..i];
      var normalized := norm(lines[i]);
      NormalizedIsRelative(cwd, lines[i], downloadsDir);
      if normalized.Some? && normalized.value != "" {
        if normalized.value !in seen {
          order := order + [normalized.value];
        }
        seen := seen + {normalized.value};
      }
    }
    assert lines[..|lines|] == lines;
  }

  /** `parseDownloadedFiles`: the accepted paths among the output lines, deduplicated and sorted. */
  method ParseDownloadedFiles(cwd: Path, output: string, downloadsDir: string) returns (files: seq<string>)
    requires IsCanonical(cwd)
    ensures IsListing(files, Accepted(line => NormalizeDownloadedPath(cwd, line, downloadsDir), Split(output, '\n')))
    ensures forall f :: f in files ==> f != "" && !StartsWith(f, "..") && !IsAbsolute(f)
  {
    var order := CollectPaths(cwd, Split(output, '\n'), downloadsDir);
    files := Sorting.SortByKey(order, Sorting.Id, false);
    Sorting.PermutationKeepsDistinct(order, files);
    forall f ensures f in files <==> f in order {
      assert f in files <==> f in multiset(files);
      assert f in order <==> f in multiset(order);
    }
  }

  /** Output whose lines are a rearrangement of another's lists the same files. */
  lemma ParseIgnoresLineOrder(cwd: Path, out1: string, out2: string, downloadsDir: string, files1: seq<string>, files2: seq<string>)
    requires IsCanonical(cwd)
    requires multiset(Split(out1, '\n')) == multiset(Split(out2, '\n'))
    requires IsListing(files1, Accepted(line => NormalizeDownloadedPath(cwd, line, downloadsDir), Split(out1, '\n')))
    requires IsListing(files2, Accepted(line => NormalizeDownloadedPath(cwd, line, downloadsDir), Split(out2, '\n')))
    ensures files1 == files2
  {
    var norm := line => NormalizeDownloadedPath(cwd, line, downloadsDir);
    AcceptedIgnoresOrder(norm, Split(out1, '\n'), Split(out2, '\n'));
    ListingUnique(files1, files2, Accepted(norm, Split(out1, '\n')));
  }
}
