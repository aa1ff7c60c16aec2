# Downloader archive, automation trust and Jules bridge: a Dafny model

This project models the core of a repository that has four parts:

- **A web front end for the `yt-dlp` downloader.** It checks the submitted URL and lays out the data directory: a `downloads` tree, a download archive and a JSON history. It builds the command line for `yt-dlp`. It turns the tool's output into a sorted list of safe paths relative to `downloads`. It also keeps the history of downloads: reading, appending, clearing, deleting a record with its files, and measuring disk usage.
- **The trust policy of the repository automation.** This is an allow-list of GitHub logins that always includes the repository owner. Decisions about actors and pull requests are built on it.
- **The Jules bridge, a script that hands GitHub issues to the Jules coding agent.** It decides whether a session keeps the repository busy. It finds the repository's Jules source and its busy session. It reads session ids back from issue comments, lists open issues and picks the next one to hand over. It resolves which issue an event is about and writes the "queued" comment.
- **The block store of a small voxel game.**

## Layout

**Shared modules**

| Module | What it models |
|---|---|
| `Wrappers` | `Option` and `Result`. |
| `Strings` | ASCII trim, case mapping, `split`/`join`, `startsWith`/`in`. |
| `Seqs` | Filter, map, union of contributions. |
| `Sorting` | A total lexicographic order and a stable sort by key. |
| `PosixPath` | `path.resolve`, `normalize`, `join`, `relative` and `isAbsolute` on POSIX paths. |
| `FileSystem` | A file tree (`map<Path, Node>`) and a `Disk` class whose methods are the `fs` calls the source makes. |

**Modules for the core files**

| Module | Source file |
|---|---|
| `YtDlp` | `website/lib/ytdlp.ts` |
| `ArchiveStore` | `website/lib/archive-store.ts` |
| `AutomationTrust` | `automation_trust.py` |
| `JulesBridge` | `jules.py` |
| `GameStore` | `website/lib/store.ts` |

**How each kind of source code is modelled**

- **Pure functions** become Dafny functions and lemmas.
- **Loops with early return or accumulation** become methods with loop invariants, proved against a specification function or a first-match contract:
  - `find_*`;
  - `extract_session_id_from_comments`;
  - `parse_trusted_actors`;
  - `parseDownloadedFiles`;
  - `calculateDirectorySize`;
  - the unlink loop of `deleteRecord`.
- **Operations on the data directory** are methods on a `Disk` object. Each one is proved equal to a function on the file tree.
- **The game store** is a class whose fields the methods replace.

A network call or a parser that the code only calls is a parameter of the model:

- JSON decoding;
- the URL parser;
- an issue's comments;
- the list of sessions or sources;
- the random cube id.

## Model

| member | source | states |
|---|---|---|
| YtDlp.ValidateVideoUrl | website/lib/ytdlp.ts:21-35 | A rejected URL carries one of the two error messages of the source. |
| YtDlp.ValidateVideoUrlOutcomes | website/lib/ytdlp.ts:21-35 | "Enter a valid URL." exactly when the parser rejects the trimmed input. "Only http/https URLs are supported." exactly when it parses with another protocol. Accepted exactly for http: and https:, returning the parser's serialization. |
| YtDlp.ValidateIgnoresPadding | website/lib/ytdlp.ts:25 | Whitespace around the URL never changes the outcome. |
| YtDlp.GetDataPaths | website/lib/ytdlp.ts:49-56 | Keeps the root as given. DataPathsAreChildren proves that the downloads directory, the archive file and the history file resolve to the children "downloads", "download-archive.txt" and "history.json" of the root. |
| YtDlp.DataPathsAreChildren | website/lib/ytdlp.ts:49-56 | The downloads directory, archive file and history file resolve to the root followed by "downloads", "download-archive.txt" and "history.json". |
| YtDlp.FixedOptions | website/lib/ytdlp.ts:62-76 | There are 13 fixed options, with the archive file after `--download-archive` and the downloads directory after `--paths`. |
| YtDlp.FormatSelectorCases | website/lib/ytdlp.ts:86-94 | A resolution "<n>p" (such as "1080p") caps the height at n in both halves of the selector. A missing, empty or "best" resolution selects "bv*+ba/b". |
| YtDlp.FormatSelector | website/lib/ytdlp.ts:87-94 | A present, non-empty resolution other than "best" caps the height at the resolution with its first "p" removed. Anything else selects "bv*+ba/b". FormatSelectorCases spells out the cases. |
| YtDlp.BuildYtDlpArgs | website/lib/ytdlp.ts:58-99 | The argument list holds the fixed options, then exactly one playlist flag, chosen by `includePlaylist`. Audio mode adds the five mp3 options and no `--format`. Video mode adds `--format` with the selector. The URL comes last. The total is 20 arguments in audio mode and 17 in video mode. |
| YtDlp.IsPathInsideRootMeans | website/lib/ytdlp.ts:101-104 | A candidate is inside the root exactly when it lies strictly below the root and its first name below the root does not start with "..". |
| YtDlp.IsPathInsideRoot | website/lib/ytdlp.ts:101-104 | The relative path from the root is non-empty, does not start with ".." and is not absolute. IsPathInsideRootMeans states which paths that admits. |
| YtDlp.NormalizeDownloadedPath | website/lib/ytdlp.ts:106-113 | Blank lines, "[" progress lines and "WARNING:" lines give null. |
| YtDlp.CandidateResolves | website/lib/ytdlp.ts:115-117 | The absolute candidate (normalized, or resolved against the downloads directory) names the file the printed path names. |
| YtDlp.NormalizeAccepts | website/lib/ytdlp.ts:106-124 | A line is accepted exactly when it is not noise and the file it names is strictly below the downloads directory, with a first name not starting with "..". |
| YtDlp.NormalizedIsSafe | website/lib/ytdlp.ts:119-123 | An accepted path is non-empty, relative and not ".."-prefixed. Resolved against the downloads directory, it names the printed file again. |
| YtDlp.NormalizedIsRelative | website/lib/ytdlp.ts:123 | Every result is a non-empty relative path that does not start with "..". |
| YtDlp.AcceptedMembers | website/lib/ytdlp.ts:129-134 | The collected set holds exactly the normalized forms of the accepted lines. |
| YtDlp.AcceptedIgnoresOrder | website/lib/ytdlp.ts:127-134 | Reordering or repeating lines in the same multiset gives the same set. |
| YtDlp.ListingUnique | website/lib/ytdlp.ts:136 | A set has exactly one sorted, duplicate-free listing. |
| YtDlp.CollectPaths | website/lib/ytdlp.ts:127-134 | The loop collects each accepted path once, and nothing else. |
| YtDlp.ParseDownloadedFiles | website/lib/ytdlp.ts:126-137 | The result is the sorted, duplicate-free listing of the accepted paths, all of them safe relative paths. |
| YtDlp.ParseIgnoresLineOrder | website/lib/ytdlp.ts:126-137 | Two outputs whose lines are permutations of each other give the same file list. |
| PosixPath.ResolveNormalize | website/lib/ytdlp.ts:115-117 | Resolving a normalized path names the same file as resolving the path itself. |
| PosixPath.JoinChild | website/lib/ytdlp.ts:52-54 | `path.join(root, name)` resolves to the root followed by that name. |
| PosixPath.RelativeInside | website/lib/ytdlp.ts:101-104 | `path.relative(root, p)` is non-empty, not ".."-prefixed and not absolute exactly when `p` is strictly below the root, with a first name not starting with "..". |
| PosixPath.ResolveRelativeBelow | website/lib/ytdlp.ts:123 | For a path below the root, resolving its relative path against the root gives the path back. |
| PosixPath.RenderPrefix | website/lib/archive-store.ts:116-120 | The resolved path starts with the resolved downloads directory plus "/" exactly when the directory is not the file-system root and the path lies strictly below it. |
| Sorting.SortByKey | website/lib/archive-store.ts:49 | The sort returns a permutation of its input, ordered by the key in the requested direction. |
| Sorting.SortSortedIsIdentity | website/lib/archive-store.ts:49 | Sorting an already ordered list leaves it unchanged. |
| Sorting.SortStable | website/lib/archive-store.ts:49 | The sort is stable: for every key, the elements with that key come out in the order they went in. |
| Sorting.SortedListingUnique | website/lib/ytdlp.ts:136 | Two sorted, duplicate-free lists with the same elements are equal. |
| FileSystem.MakeDirs | website/lib/archive-store.ts:27-28 | `mkdir -p` makes the path a directory and keeps every existing entry, or fails. |
| FileSystem.MakeDirsAddsAlongPath | website/lib/archive-store.ts:27-28 | The only new entries are directories along the path. |
| FileSystem.MakeDirsExisting | website/lib/archive-store.ts:27-28 | On an existing directory, `mkdir -p` changes nothing. |
| FileSystem.WriteTree | website/lib/archive-store.ts:31 | `writeFile` succeeds exactly when the parent is a directory and the target is not one. |
| FileSystem.UnlinkTree | website/lib/archive-store.ts:126 | `unlink` succeeds exactly on a regular file, and removes only that file. |
| FileSystem.Disk.Mkdir | website/lib/archive-store.ts:27 | The disk changes as `MakeDirs` says, or not at all. |
| FileSystem.Disk.Access | website/lib/archive-store.ts:17-24 | Reports whether something exists at the path. |
| FileSystem.Disk.WriteFile | website/lib/archive-store.ts:35 | On success the file holds the new content; on failure the disk is unchanged. |
| FileSystem.Disk.ReadFile | website/lib/archive-store.ts:41 | Returns the content of a regular file and fails otherwise. |
| FileSystem.Disk.Unlink | website/lib/archive-store.ts:126 | Removes a regular file and nothing else; fails otherwise. |
| FileSystem.Disk.ReadDir | website/lib/archive-store.ts:76 | Lists the children of a directory, each flagged as a directory or not; fails on anything else. |
| FileSystem.Disk.StatSize | website/lib/archive-store.ts:87-88 | Gives the size of a regular file. |
| FileSystem.CalculateDirectorySize | website/lib/archive-store.ts:71-96 | The recursion returns the total size of the regular files at or below the directory, and 0 when the directory cannot be read. |
| FileSystem.DirectorySize | website/lib/archive-store.ts:71-96 | The sum of the sizes of the files below the directory, and 0 when it is not a directory. CalculateDirectorySize is proved to return it. |
| FileSystem.SumEntries | website/lib/archive-store.ts:81-93 | The loop over the entries adds exactly the files below the entries seen so far. |
| FileSystem.EntrySize | website/lib/archive-store.ts:82-92 | An entry contributes its subtree if it is a directory, its size if it is a file. |
| ArchiveStore.CreateIfMissing | website/lib/archive-store.ts:30-36 | A missing file is created with the given content when its parent is a directory. An existing entry is kept as it is. Nothing else changes. |
| ArchiveStore.EnsureLayout | website/lib/archive-store.ts:26-37 | Nothing already on disk is deleted or overwritten. On success both directories exist and both files exist. |
| ArchiveStore.EnsureLayoutIdempotent | website/lib/archive-store.ts:26-37 | On a disk that is already laid out, setting up storage succeeds and changes nothing. |
| ArchiveStore.EnsureLayoutCreatesEmptyFiles | website/lib/archive-store.ts:30-36 | A missing archive is created empty, and a missing history is created as "[]\n". |
| ArchiveStore.EnsureDataStorage | website/lib/archive-store.ts:26-37 | The method's outcome and new disk are those of `EnsureLayout`. |
| ArchiveStore.StoredHistory | website/lib/archive-store.ts:43-52 | Content that is not a JSON array reads as []. An array is returned as a permutation of its records, newest `createdAt` first. |
| ArchiveStore.StoredHistoryStable | website/lib/archive-store.ts:49 | Records with equal `createdAt` are read back in the order the file stores them. |
| ArchiveStore.ReadBack | website/lib/archive-store.ts:44-49 | A newest-first history written as JSON with its newline reads back unchanged. |
| ArchiveStore.ClearedReadsEmpty | website/lib/archive-store.ts:57 | A cleared history reads as []. |
| ArchiveStore.ReadHistory | website/lib/archive-store.ts:39-53 | Sets up storage, then returns the stored history of the file's content. |
| ArchiveStore.ClearHistory | website/lib/archive-store.ts:55-58 | After setting up storage, only the history file changes, and it becomes "[]\n". The downloads tree is untouched. |
| ArchiveStore.Appended | website/lib/archive-store.ts:64-67 | The new record comes first. The rest is a prefix of the old history. The length is min(old length + 1, 200). |
| ArchiveStore.AppendedSorted | website/lib/archive-store.ts:65 | Prepending a record no older than the rest keeps the history newest first. |
| ArchiveStore.AppendThenRead | website/lib/archive-store.ts:64-68 | Under that condition, the appended history reads back as written. |
| ArchiveStore.RewriteKeepsLayout | website/lib/archive-store.ts:68 | Rewriting the history file keeps the layout, so the next setup changes nothing. |
| ArchiveStore.AppendThenReadHistory | website/lib/archive-store.ts:60-69 | After an append, reading the history from disk gives the appended list. |
| ArchiveStore.AppendHistory | website/lib/archive-store.ts:60-69 | Sets up storage and writes the appended history with a trailing newline. If the history cannot be read, the disk is left as the setup left it. |
| ArchiveStore.GetStorageUsage | website/lib/archive-store.ts:98-101 | The usage is the total size of the regular files below the downloads directory, and 0 when it is not a directory. |
| ArchiveStore.FindRecord | website/lib/archive-store.ts:105-109 | Finds the first record with the id, or reports absence exactly when no record has it. |
| ArchiveStore.RemoveAt | website/lib/archive-store.ts:136 | Drops exactly one record and keeps the order of the rest. The records before it stay in place, and each later one moves up by one. The length drops by one and the multiset loses that record. |
| ArchiveStore.RemoveAtSorted | website/lib/archive-store.ts:136 | The remaining records stay newest first. |
| ArchiveStore.DeleteThenRead | website/lib/archive-store.ts:136-137 | The shortened history reads back as written. |
| ArchiveStore.TargetsInside | website/lib/archive-store.ts:114-123 | Every file chosen for unlinking lies strictly below the resolved downloads directory. |
| ArchiveStore.InsideDownloads | website/lib/archive-store.ts:116-120 | The rendered resolved path starts with the rendered downloads directory followed by "/". TargetsInside and RecordedFilesPass state what that admits. |
| ArchiveStore.RecordedFilesPass | website/lib/archive-store.ts:116-120 | A path produced by `normalizeDownloadedPath` passes the deletion check, unless the downloads directory is "/". |
| ArchiveStore.AfterUnlink | website/lib/archive-store.ts:125-132 | Unlinking only removes entries. |
| ArchiveStore.AfterUnlinkSafe | website/lib/archive-store.ts:125-132 | Only regular files among the targets disappear, and the tree stays well formed. |
| ArchiveStore.UnlinkStaysInside | website/lib/archive-store.ts:114-133 | No entry outside the downloads directory is ever removed. |
| ArchiveStore.WriteAfterUnlink | website/lib/archive-store.ts:137 | The history file can still be written after the unlinks. |
| ArchiveStore.UnlinkRecordFiles | website/lib/archive-store.ts:114-133 | The loop unlinks exactly the files that pass the check. Skipped and failing files do not stop it. |
| ArchiveStore.DeleteRecord | website/lib/archive-store.ts:103-140 | The call succeeds exactly when the history can be read. When it cannot, nothing is deleted and nothing changes beyond the storage setup. An unknown id succeeds with false and changes nothing beyond the storage setup. A known id returns true, unlinks that record's checked files, and rewrites the history without that one record. |
| AutomationTrust.NormalizeIsNormal | automation_trust.py:9 | Stripping and lower-casing a login is idempotent. |
| AutomationTrust.ListedNamesMembers | automation_trust.py:18-32 | For a JSON array, a name is listed exactly when some non-blank string element normalizes to it. Otherwise, some non-blank comma-separated piece normalizes to it. |
| AutomationTrust.ListedNamesAreNormal | automation_trust.py:23-32 | Every listed name is stripped and lower-case. |
| AutomationTrust.ListedNames | automation_trust.py:14-34 | A blank value lists nothing. A value that parses as a JSON array lists its normalized non-blank strings. Any other value lists its normalized non-blank comma-separated pieces. ListedNamesMembers and ListedNamesAreNormal prove it. |
| AutomationTrust.TrustedActors | automation_trust.py:5-34 | The owner is always included. A blank list gives only the owner. Every member is normalized. |
| AutomationTrust.ParseTrustedActors | automation_trust.py:5-34 | The loops build exactly the trusted set. |
| AutomationTrust.AddListActors | automation_trust.py:23-27 | The loop over a JSON array adds exactly the names of its non-blank string elements. |
| AutomationTrust.AddCommaActors | automation_trust.py:29-32 | The loop over the comma-separated pieces adds exactly the non-blank pieces. |
| AutomationTrust.OwnerIsTrusted | automation_trust.py:37-41 | The owner is trusted under any spelling of its login, whatever the list says. |
| AutomationTrust.BlankListTrustsOnlyOwner | automation_trust.py:37-41 | With a blank list, an actor is trusted exactly when it is the owner, ignoring case and surrounding spaces. |
| AutomationTrust.AsBool | automation_trust.py:44-49 | Booleans are taken as they are; non-strings go by their truthiness. |
| AutomationTrust.AsBoolOfString | automation_trust.py:47-48 | A string is true exactly when it spells "true" in any case, once stripped. |
| AutomationTrust.IsTrustedPrMeans | automation_trust.py:52-66 | A pull request is trusted exactly when four conditions hold: it is not cross-repository, the owner and head owner are given, they agree ignoring case, and the author is trusted. |
| AutomationTrust.IsTrustedPr | automation_trust.py:52-66 | Refuses cross-repository pull requests, a missing owner or head owner, and a head owner different from the owner. Otherwise it asks whether the author is trusted. IsTrustedPrMeans states the equivalence. |
| AutomationTrust.IsTrustedActor | automation_trust.py:37-41 | A non-empty login is trusted when its stripped, lower-cased form is in the trusted set. OwnerIsTrusted proves that the owner always is. |
| AutomationTrust.ForkPrNeverTrusted | automation_trust.py:60-61 | A fork pull request is never trusted, not even when the owner wrote it. |
| JulesBridge.IsSessionBusyMeans | jules.py:18-30 | A session is busy exactly when its state equals one of the six busy states, ignoring case. A missing state is never busy. |
| JulesBridge.IsSessionBusy | jules.py:28-30 | The upper-cased state is one of the six busy states. IsSessionBusyMeans states the equivalence. |
| JulesBridge.BusyExamples | jules.py:28-30 | "queued" and "IN_PROGRESS" are busy; "COMPLETED" and "FAILED" are not. |
| JulesBridge.IsRepoOwnerMeans | jules.py:257-259 | True exactly for a non-empty login equal to the owner, ignoring case. |
| JulesBridge.IsRepoOwner | jules.py:257-259 | A present, non-empty login whose lower-cased form equals the owner's. IsRepoOwnerMeans states the equivalence. |
| JulesBridge.SourceMatchesMeans | jules.py:66-70 | A source matches exactly when its owner and repository are both non-empty and equal the targets, ignoring case. |
| JulesBridge.SourceMatches | jules.py:66-70 | Both names of the source are present and equal the targets after lower-casing. SourceMatchesMeans states the equivalence. |
| JulesBridge.FindSourceForRepo | jules.py:58-71 | Returns the name of the first matching source, or None when none matches. |
| JulesBridge.FindBusySessionForSource | jules.py:73-80 | Returns the first busy session of the given source, or None when there is none. |
| JulesBridge.MatchAt | jules.py:16 | A match at a position captures a `sessions/` id with no backtick, and the body holds the label, the id and the closing backtick. |
| JulesBridge.SearchFrom | jules.py:16 | Every id found is such a captured id that the body holds. |
| JulesBridge.SearchFromNoneMeans | jules.py:16 | The search from a position finds nothing exactly when no match starts at that position or later. |
| JulesBridge.SearchSkipsNone | jules.py:16 | Positions where no match starts are passed over. The first position where one starts gives the result. |
| JulesBridge.SearchFoundAt | jules.py:16 | A found id is the capture of a match that starts at or after the position, with no match starting before it. |
| JulesBridge.SearchFromLeftmost | jules.py:16 | The search yields an id exactly when that id is the capture of the leftmost match. |
| JulesBridge.SearchSessionId | jules.py:169 | `search` returns a captured `sessions/` id held in the body, or None. |
| JulesBridge.HeldMatchIsFound | jules.py:169 | A body that holds the label, a `sessions/` id and the closing backtick always yields some id. |
| JulesBridge.SearchSkipsUnlabeled | jules.py:16 | The search passes over every position where the label and the `sessions/` prefix do not begin. |
| JulesBridge.StarFreeHasNoSessionId | jules.py:16 | A body without `*` holds no session id. |
| JulesBridge.MatchAtFinds | jules.py:16 | A written label, id and backtick is matched there, with exactly that id. |
| JulesBridge.SessionIdLineRoundTrip | jules.py:365 | The id written in the "Session ID" line of the started comment is the id read back. This holds whatever follows the line, provided the text before it does not contain the label. |
| JulesBridge.StartedCommentRoundTrip | jules.py:360-368 | Whatever the title, searching the comment posted for a started session gives back exactly the id it names. |
| JulesBridge.FirstSessionId | jules.py:165-172 | Returns the id of the first comment that holds one, and None exactly when no comment holds one. |
| JulesBridge.ExtractSessionIdFromComments | jules.py:165-172 | The loop returns that first id, always a `sessions/` name. |
| JulesBridge.ExtractFindsStartedSession | jules.py:165-172 | For the comments "No session here" and then the started-session comment, the extracted id is the started session's id. |
| JulesBridge.FindSessionId | jules.py:175-180 | The id extracted from the issue's comments. An issue that cannot be loaded has no comments and so gives None. |
| JulesBridge.HasQueueComment | jules.py:183-192 | Some comment of the issue contains the queue marker. QueueIssue and QueueIssueOnce use it. |
| JulesBridge.OpenIssuesOf | jules.py:242-254 | The list holds exactly the summaries of the elements that are not pull requests, and is never longer than the input. |
| JulesBridge.OpenIssuesOfConcat | jules.py:244-254 | The issues keep their relative order. |
| JulesBridge.OpenIssuesOfPlainIssues | jules.py:244-254 | With no pull request among them, every issue is listed in place. |
| JulesBridge.ListOpenIssues | jules.py:224-254 | Empty output and JSON that is not an array give []. An array gives its issues. |
| JulesBridge.NextPending | jules.py:262-278 | Returns the first issue with a non-zero number, written by the owner and with no session id in its comments. Returns None exactly when there is none. |
| JulesBridge.IsPending | jules.py:265-271 | The loop's test: the issue has a non-zero number, the owner wrote it, and its comments hold no session id. |
| JulesBridge.NextPendingIsPending | jules.py:262-278 | The issue returned is one of the listed issues and is pending. |
| JulesBridge.FindNextPendingIssue | jules.py:262-278 | The loop returns exactly that first pending issue. |
| JulesBridge.ResolveIssueForEvent | jules.py:291-322 | **Dispatch:** without an issue number gives (None, None); otherwise ("opened", the loaded issue). **Schedule:** (None, None) when no issue is pending; otherwise ("opened", the next pending issue), which is always written by the owner and has no session. **Other events:** (None, None) unless the action is "opened" or "created", in which case the action and the event's issue. |
| JulesBridge.QueueLines | jules.py:207-219 | The comment starts with the busy header and has the session id on its fourth line. The URL line comes sixth when there is a URL. It ends with an empty line and the queue marker. |
| JulesBridge.UrlLineOnlyWithUrl | jules.py:216-217 | A session URL line is present exactly when the session has a non-empty URL. |
| JulesBridge.QueueComment | jules.py:219-221 | The comment always ends with a newline and the queue marker. |
| JulesBridge.QueueCommentNamesSession | jules.py:205-214 | The comment names the busy session between backticks ("unknown" without a name). |
| JulesBridge.QueueIssue | jules.py:200-221 | Nothing is posted when a queue comment exists already; otherwise the queue comment is posted. |
| JulesBridge.QueueIssueOnce | jules.py:183-192 | Once the queue comment is posted, the issue has a queue comment, so queueing it again posts nothing. |
| GameStore.GameState.constructor | website/lib/store.ts:21-26 | The initial texture is dirt. The initial cubes are cube "1" (dirt) at [1,1,1] and cube "2" (grass) at [2,1,1]. |
| GameStore.GameState.AddCube | website/lib/store.ts:27-37 | Exactly one cube is appended, at the position and with the current texture. The earlier cubes and the texture are unchanged. |
| GameStore.GameState.RemoveCube | website/lib/store.ts:38-44 | No cube remains at the position. The rest are those the filter keeps, and the texture is unchanged. |
| GameStore.GameState.SetTexture | website/lib/store.ts:45 | Only the texture changes. |
| GameStore.GameState.ResetWorld | website/lib/store.ts:47 | The world becomes empty and the texture is kept. |
| GameStore.RemainingMembers | website/lib/store.ts:40-43 | A cube survives removal exactly when it was there and is not at the position. |
| GameStore.Remaining | website/lib/store.ts:38-44 | The cubes the filter keeps. RemainingMembers, RemainingConcat and RemainingOfEmptyPosition prove membership, order and the no-op case. |
| GameStore.RemainingConcat | website/lib/store.ts:40-43 | The surviving cubes keep their relative order. |
| GameStore.RemainingOfEmptyPosition | website/lib/store.ts:40-43 | Removing at a position with no cube leaves the list unchanged. |
| GameStore.RemoveAfterAdd | website/lib/store.ts:27-43 | Adding a cube and then removing at its position is the same as just removing there. |
| GameStore.RemoveIdempotent | website/lib/store.ts:38-44 | Removing twice at one position is the same as removing once. |

## Where the model follows the code

- **History write.** `appendHistory` and `deleteRecord` write the history with a plain `fs.writeFile` (website/lib/archive-store.ts:67-68 and :137). The model follows that: each write is one replacement of the file's content.
- **Game reset.** A test of the game store expects a non-empty world after `resetWorld`. The code empties the list, and so does the model.
- **Stale tests.** Some tests call functions that do not exist, or call them with the wrong number of arguments. Examples: a one-argument `find_next_pending_issue`, or whitespace splitting of the trusted-actor list. Only the code's behaviour is modelled.

## Left out

- **Unicode.** Trimming and case mapping cover ASCII only: spaces, tab, newline and the like, and the letters A-Z. JavaScript's `trim`/`toLowerCase` and Python's `strip`/`lower`/`upper` also handle the rest of Unicode.
- **Strings.IsSpace: Python's extra ASCII whitespace.** Python's `str.strip` also removes the separators \x1c to \x1f, which JavaScript's `trim` keeps. The model's one whitespace set leaves them out for both languages. So AutomationTrust.Normalize keeps them where automation_trust.py:9, 26, 30, 41 and 64 would strip them. For example, Python normalizes the login "\x1fbob" to "bob", but the model leaves it as "\x1fbob".
- **Collation.** `localeCompare` is replaced by a fixed lexicographic order on character codes. Locale-dependent collation is not modelled.
- **Parsers.** The URL parser and JSON parsing and serialization are parameters. They are related only by what JSON guarantees: a serialized array parses back.
- **File system limits.**
  - The file system is a map from canonical paths to files and directories. Symbolic links, permissions, races with other processes, and I/O errors other than "wrong kind of entry in the way" are not modelled.
  - A file's size is the number of characters of its content, not of its bytes in UTF-8.
- **Atomic history write.** website/lib/archive-store.ts:67-68 and :137 write the history with a plain `fs.writeFile`. No write-to-temporary-then-rename is modelled, and neither is a write that stops halfway.
- **Concurrency.** Two requests running at the same time are not modelled; each operation runs alone.
- **Process environment.** `process.cwd()` is a constant of the disk. The data-directory choice made from environment variables (`resolveDataDir`) is not part of this model.
- **`yt-dlp`'s own behaviour.** Running the downloader, and its output format, are not modelled. The output is an input string.
- **Logging.** `console.error` and `print` calls have no effect in the model.
- **Non-record history arrays.** The elements of a history array are taken to be download records. An array holding other values is read as those values would be cast in TypeScript, which the model does not represent.
- **`None` in the trust policy.** AutomationTrust models Python's `None` login and list as "". Every function tests both the same way before using them.
- **Non-string values in the Jules bridge.** Jules session states and issue fields that are not strings are not modelled: a state is a string or missing. A `null` session name in the queue comment would print "None" in Python. The model prints "unknown" only for a missing name, and takes a present name as a string.
- **Network and CLI code of the Jules bridge.** The HTTP client, `run_command`, `load_issue`, `get_event_data`, `post_issue_comment`, `start_issue_session` and `main` are not modelled, apart from the text of the comment `start_issue_session` posts. Their results are inputs:
  - the comments of an issue, given by number, where an issue that cannot be loaded has no comments;
  - the dispatched issue;
  - the listed issues, sources and sessions.
- **Regular-expression engine.** `SESSION_ID_PATTERN.search` is written out as a leftmost search for its one pattern, not as a general regular-expression engine.
- **Python exceptions.** Exceptions Python would raise on malformed payloads are not modelled; such payloads cannot be expressed in the model's types. One example is a `githubRepo` that is `null`.
- **`saveWorld`.** It is an empty function in the game store and has no model.
- **Number representation in the game store.** Cube positions are integers. JavaScript numbers (fractions, NaN) are not modelled.
- **Random cube ids.** The id is a parameter of `AddCube`.
