/**
 * The selection logic of the Jules bridge (`jules.py`): which session keeps a
 * repository busy, which GitHub source and busy session belong to a
 * repository, which session id an issue's comments already record, which
 * open issue the scheduled run picks up next, which issue an event resolves
 * to, and the comment posted when an issue has to wait.
 *
 * Everything fetched over the network (sources, sessions, the issue list,
 * an issue's comments, the dispatched issue) is an input here. A JSON field
 * that may be missing or `null` is an `Option`; Python's truthiness of such
 * a string is `Present`.
 */
module JulesBridge {
  import opened Wrappers
  import opened Strings
  import opened Seqs

  /** A string field that is there and is not empty: Python's `bool(value)` for an optional string. */
  predicate Present(s: Option<string>) {
    s.Some? && s.value != ""
  }

  // ---------------------------------------------------------------- sessions

  /** The session states that still occupy the repository's only active slot. */
  const BusyStates: set<string> :=
    {"QUEUED", "PLANNING", "AWAITING_PLAN_APPROVAL", "AWAITING_USER_FEEDBACK", "IN_PROGRESS", "PAUSED"}

  /** The fields of a Jules session the bridge reads; `source` is `sourceContext.source`. */
  datatype Session = Session(name: Option<string>, state: Option<string>, source: Option<string>, url: Option<string>)

  /** `session.get("state") or ""`. */
  function StateText(session: Session): string {
    if session.state.Some? then session.state.value else ""
  }

  /** `is_session_busy`: the upper-cased state is one of the busy states. */
  predicate IsSessionBusy(session: Session) {
    Upper(StateText(session)) in BusyStates
  }

  lemma UpperKeeps(s: string)
    requires forall k :: 0 <= k < |s| ==> !('a' <= s[k] <= 'z')
    ensures Upper(s) == s
  {
  }

  lemma BusyStatesAreUpper()
    ensures forall b :: b in BusyStates ==> Upper(b) == b
  {
    UpperKeeps("QUEUED");
    UpperKeeps("PLANNING");
    UpperKeeps("AWAITING_PLAN_APPROVAL");
    UpperKeeps("AWAITING_USER_FEEDBACK");
    UpperKeeps("IN_PROGRESS");
    UpperKeeps("PAUSED");
  }

  /** A session is busy exactly when its state spells a busy state in any case; a missing state is never busy. */
  lemma IsSessionBusyMeans(session: Session)
    ensures IsSessionBusy(session) <==> exists b :: b in BusyStates && EqualsIgnoringCase(StateText(session), b)
    ensures session.state.None? ==> !IsSessionBusy(session)
  {
    var x := StateText(session);
    if IsSessionBusy(session) {
      LowerOfUpper(x);
      LowerEqualIffIgnoringCase(x, Upper(x));
    }
    if b :| b in BusyStates && EqualsIgnoringCase(x, b) {
      LowerEqualIffIgnoringCase(x, b);
      UpperOfLower(x);
      UpperOfLower(b);
      BusyStatesAreUpper();
    }
    if session.state.None? {
      assert Upper(x) == "";
    }
  }

  /** A lower-case busy state is busy; the terminal states are not. */
  lemma BusyExamples()
    ensures IsSessionBusy(Session(None, Some("queued"), None, None))
    ensures IsSessionBusy(Session(None, Some("IN_PROGRESS"), None, None))
    ensures !IsSessionBusy(Session(None, Some("COMPLETED"), None, None))
    ensures !IsSessionBusy(Session(None, Some("FAILED"), None, None))
  {
    assert Upper("queued") == "QUEUED";
    assert Upper("IN_PROGRESS") == "IN_PROGRESS";
    assert Upper("FAILED")[0] == 'F';
  }

  // ---------------------------------------------------------------- owners and sources

  /** `is_repo_owner`: a non-empty login equal to the owner after lower-casing both. */
  predicate IsRepoOwner(login: Option<string>, repoOwner: string) {
    Present(login) && Lower(login.value) == Lower(repoOwner)
  }

  lemma IsRepoOwnerMeans(login: Option<string>, repoOwner: string)
    ensures IsRepoOwner(login, repoOwner) <==> Present(login) && EqualsIgnoringCase(login.value, repoOwner)
  {
    if login.Some? {
      LowerEqualIffIgnoringCase(login.value, repoOwner);
    }
  }

  /** A Jules source: its `name` and its `githubRepo` owner and repository. */
  datatype Source = Source(name: Option<string>, owner: Option<string>, repo: Option<string>)

  /** The test inside `find_source_for_repo`'s loop. */
  predicate SourceMatches(source: Source, repoOwner: string, repoName: string) {
    && Present(source.owner) && Present(source.repo)
    && Lower(source.owner.value) == Lower(repoOwner)
    && Lower(source.repo.value) == Lower(repoName)
  }

  /** A source belongs to the repository when both names are given and agree with it up to case. */
  lemma SourceMatchesMeans(source: Source, repoOwner: string, repoName: string)
    ensures SourceMatches(source, repoOwner, repoName) <==>
      && Present(source.owner) && Present(source.repo)
      && EqualsIgnoringCase(source.owner.value, repoOwner)
      && EqualsIgnoringCase(source.repo.value, repoName)
  {
    if source.owner.Some? && source.repo.Some? {
      LowerEqualIffIgnoringCase(source.owner.value, repoOwner);
      LowerEqualIffIgnoringCase(source.repo.value, repoName);
    }
  }

  /** `find_source_for_repo`: the name of the first matching source (which may itself lack a name). */
  method FindSourceForRepo(sources: seq<Source>, repoOwner: string, repoName: string) returns (name: Option<string>)
    ensures (forall k :: 0 <= k < |sources| ==> !SourceMatches(sources[k], repoOwner, repoName)) ==> name.None?
    ensures forall k :: (0 <= k < |sources| && SourceMatches(sources[k], repoOwner, repoName) &&
      forall j :: 0 <= j < k ==> !SourceMatches(sources[j], repoOwner, repoName)) ==> name == sources[k].name
  {
    var targetOwner := Lower(repoOwner);
    var targetRepo := Lower(repoName);
    for i := 0 to |sources|
      invariant forall j :: 0 <= j < i ==> !SourceMatches(sources[j], repoOwner, repoName)
    {
      var owner := sources[i].owner;
      var repo := sources[i].repo;
      if Present(owner) && Present(repo) && Lower(owner.value) == targetOwner && Lower(repo.value) == targetRepo {
        return sources[i].name;
      }
    }
    return None;
  }

  /** `find_busy_session_for_source`: the first busy session of the given source. */
  method FindBusySessionForSource(sessions: seq<Session>, sourceName: string) returns (busy: Option<Session>)
    ensures busy.Some? ==> busy.value.source == Some(sourceName) && IsSessionBusy(busy.value)
    ensures (forall k :: 0 <= k < |sessions| ==> !(sessions[k].source == Some(sourceName) && IsSessionBusy(sessions[k]))) ==>
      busy.None?
    ensures forall k :: (0 <= k < |sessions| && sessions[k].source == Some(sourceName) && IsSessionBusy(sessions[k]) &&
      forall j :: 0 <= j < k ==> !(sessions[j].source == Some(sourceName) && IsSessionBusy(sessions[j]))) ==>
      busy == Some(sessions[k])
  {
    for i := 0 to |sessions|
      invariant forall j :: 0 <= j < i ==> !(sessions[j].source == Some(sourceName) && IsSessionBusy(sessions[j]))
    {
      var session := sessions[i];
      if session.source != Some(sourceName) {
        continue;
      }
      if IsSessionBusy(session) {
        return Some(session);
      }
    }
    return None;
  }

  // ---------------------------------------------------------------- session ids in comments

  /** The text before the captured id in the session-id pattern. */
  const SessionIdLabel := "**Session ID:** `"
  /** Every captured id starts with this. */
  const SessionPrefix := "sessions/"

  /** What the pattern's group can capture: the prefix, at least one more character, no backtick. */
  predicate IsSessionName(id: string) {
    StartsWith(id, SessionPrefix) && |id| > |SessionPrefix| && '`' !in id
  }

  /** The body holds the full match for this id: the label, the id and the closing backtick. */
  predicate HoldsMatch(body: string, id: string) {
    Contains(body, SessionIdLabel + id + "`")
  }

  /** The position of the first `c` in `s`, or `|s|` when there is none. */
  function FirstIndexOf(s: string, c: char): (j: nat)
    ensures j <= |s| && c !in s[..j]
    ensures j < |s| ==> s[j] == c
    decreases |s|
  {
    if s == [] || s[0] == c then 0
    else
      var j := 1 + FirstIndexOf(s[1..], c);
      assert s[..j] == [s[0]] + s[1..][..j - 1];
      j
  }

  /** The id the pattern captures in a match that starts at position `i`, if one does. */
  function MatchAt(body: string, i: nat): (r: Option<string>)
    requires i <= |body|
    ensures r.Some? ==> IsSessionName(r.value) && HoldsMatch(body, r.value)
  {
    var head := SessionIdLabel + SessionPrefix;
    var rest := body[i..];
    if !StartsWith(rest, head) then None
    else
      var tail := rest[|head|..];
      var j := FirstIndexOf(tail, '`');
      if j == 0 || j == |tail| then None
      else
        var id := SessionPrefix + tail[..j];
        assert id[..|SessionPrefix|] == SessionPrefix;
        assert body[i..i + |SessionIdLabel + id + "`"|] == SessionIdLabel + id + "`" by {
          assert rest[..|head|] == head;
          assert rest[..|head| + j + 1] == head + tail[..j] + [tail[j]];
          assert SessionIdLabel + id + "`" == head + tail[..j] + [tail[j]];
          assert body[i..i + |head| + j + 1] == rest[..|head| + j + 1];
        }
        ContainsAt(body, SessionIdLabel + id + "`", i);
        Some(id)
  }

  /** `SESSION_ID_PATTERN.search(body)` from position `i` on: the leftmost match's captured id. */
  function SearchFrom(body: string, i: nat): (r: Option<string>)
    requires i <= |body|
    ensures r.Some? ==> IsSessionName(r.value) && HoldsMatch(body, r.value)
    decreases |body| - i
  {
    var m := MatchAt(body, i);
    if m.Some? || i == |body| then m else SearchFrom(body, i + 1)
  }

  function SearchSessionId(body: string): (r: Option<string>)
    ensures r.Some? ==> IsSessionName(r.value) && HoldsMatch(body, r.value)
  {
    SearchFrom(body, 0)
  }

  /** A search skips every position where the label and the `sessions/` prefix do not begin. */
  lemma {:induction false} SearchSkipsUnlabeled(body: string, i: nat, j: nat)
    requires i <= j <= |body|
    requires forall k :: i <= k < j ==> !StartsWith(body[k..], SessionIdLabel + SessionPrefix)
    ensures SearchFrom(body, i) == SearchFrom(body, j)
    decreases j - i
  {
    if i < j {
      assert MatchAt(body, i).None?;
      SearchSkipsUnlabeled(body, i + 1, j);
    }
  }

  /** The search from `i` finds nothing exactly when no position from `i` on starts a match. */
  lemma {:induction false} SearchFromNoneMeans(body: string, i: nat)
    requires i <= |body|
    ensures SearchFrom(body, i).None? <==> forall k :: i <= k <= |body| ==> MatchAt(body, k).None?
    decreases |body| - i
  {
    if i < |body| {
      SearchFromNoneMeans(body, i + 1);
    }
  }

  /** Positions where no match starts are skipped; the first one where a match starts decides. */
  lemma {:induction false} SearchSkipsNone(body: string, i: nat, j: nat)
    requires i <= j <= |body|
    requires forall k :: i <= k < j ==> MatchAt(body, k).None?
    ensures SearchFrom(body, i) == SearchFrom(body, j)
    ensures MatchAt(body, j).Some? ==> SearchFrom(body, i) == MatchAt(body, j)
    decreases j - i
  {
    if i < j {
      SearchSkipsNone(body, i + 1, j);
    }
  }

  /** Where a search from `i` finds an id: the first position from `i` on where a match starts. */
  lemma {:induction false} SearchFoundAt(body: string, i: nat) returns (j: nat)
    requires i <= |body| && SearchFrom(body, i).Some?
    ensures i <= j <= |body| && MatchAt(body, j) == SearchFrom(body, i)
    ensures forall k :: i <= k < j ==> MatchAt(body, k).None?
    decreases |body| - i
  {
    var m := MatchAt(body, i);
    if m.Some? {
      j := i;
    } else {
      assert SearchFrom(body, i) == SearchFrom(body, i + 1);
      j := SearchFoundAt(body, i + 1);
      assert forall k :: i + 1 <= k < j ==> MatchAt(body, k).None?;
    }
  }

  /** The search yields the id of the leftmost match from `i` on, and only that. */
  lemma SearchFromLeftmost(body: string, i: nat, id: string)
    requires i <= |body|
    ensures SearchFrom(body, i) == Some(id) <==>
      exists j :: i <= j <= |body| && MatchAt(body, j) == Some(id) &&
        forall k :: i <= k < j ==> MatchAt(body, k).None?
  {
    if SearchFrom(body, i) == Some(id) {
      var j := SearchFoundAt(body, i);
    }
    forall j | i <= j <= |body| && MatchAt(body, j) == Some(id) &&
        forall k :: i <= k < j ==> MatchAt(body, k).None?
      ensures SearchFrom(body, i) == Some(id)
    {
      SearchSkipsNone(body, i, j);
    }
  }

  /** A body that holds a full match for some session id yields an id. */
  lemma HeldMatchIsFound(body: string, id: string)
    requires IsSessionName(id) && HoldsMatch(body, id)
    ensures SearchSessionId(body).Some?
  {
    var i := ContainsIndex(body, SessionIdLabel + id + "`");
    MatchAtFinds(body, i, id);
    SearchFromNoneMeans(body, 0);
  }

  /** A body without `*` records no session id ("No session here"). */
  lemma StarFreeHasNoSessionId(body: string)
    requires '*' !in body
    ensures SearchSessionId(body).None?
  {
    forall k | 0 <= k < |body| ensures !StartsWith(body[k..], SessionIdLabel + SessionPrefix) {
      assert body[k..][0] == body[k];
      assert (SessionIdLabel + SessionPrefix)[0] == '*';
    }
    SearchSkipsUnlabeled(body, 0, |body|);
  }

  /** The line `start_issue_session` writes into its comment. */
  function SessionIdLine(id: string): string {
    "- " + SessionIdLabel + id + "`"
  }

  /** A full match written at position `i` is found there, with exactly the written id. */
  lemma MatchAtFinds(body: string, i: nat, id: string)
    requires IsSessionName(id)
    requires i + |SessionIdLabel + id + "`"| <= |body|
    requires body[i..i + |SessionIdLabel + id + "`"|] == SessionIdLabel + id + "`"
    ensures MatchAt(body, i) == Some(id)
  {
    var head := SessionIdLabel + SessionPrefix;
    var rest := body[i..];
    var name := id[|SessionPrefix|..];
    var n := |name|;
    assert id == SessionPrefix + name;
    assert SessionIdLabel + id + "`" == head + name + "`";
    assert rest[..|head| + n + 1] == head + name + "`";
    assert rest[..|head|] == head;
    var tail := rest[|head|..];
    assert tail[..n] == name;
    assert tail[n] == '`';
    assert '`' !in name;
    assert FirstIndexOf(tail, '`') == n;
  }

  /**
   * Text that does not hold `needle` cannot hold its start either when "- "
   * follows it, as long as `needle` has no '-' and does not start with ' '.
   */
  lemma NoStartBeforeDash(pre: string, rest: string, needle: string)
    requires needle != [] && needle[0] != ' ' && '-' !in needle
    requires !Contains(pre, needle)
    requires |rest| >= 2 && rest[..2] == "- "
    ensures forall k :: 0 <= k < |pre| + 2 ==> !StartsWith((pre + rest)[k..], needle)
  {
    var body := pre + rest;
    forall k | 0 <= k < |pre| + 2 ensures !StartsWith(body[k..], needle) {
      if k + |needle| <= |pre| {
        if StartsWith(body[k..], needle) {
          assert pre[k..k + |needle|] == body[k..][..|needle|];
          ContainsAt(pre, needle, k);
        }
      } else if k < |pre| {
        var m := |pre| - k;
        assert needle[m] in needle;
        assert body[k..][m] == body[|pre|] == rest[0] == '-';
      } else {
        assert body[k..][0] == rest[k - |pre|] == "- "[k - |pre|];
        assert needle[0] in needle;
      }
    }
  }

  lemma StartsWithLonger(x: string, a: string, b: string)
    ensures StartsWith(x, a + b) ==> StartsWith(x, a)
  {
    if StartsWith(x, a + b) {
      assert x[..|a|] == (a + b)[..|a|];
    }
  }

  lemma LabelShape()
    ensures SessionIdLabel != [] && SessionIdLabel[0] == '*' && '-' !in SessionIdLabel
  {
    assert SessionIdLabel == ['*', '*', 'S', 'e', 's', 's', 'i', 'o', 'n', ' ', 'I', 'D', ':', '*', '*', ' ', '`'];
  }

  /** The search passes over text without a label and the "- " after it. */
  lemma SearchSkipsLead(pre: string, rest: string)
    requires !Contains(pre, SessionIdLabel)
    requires |rest| >= 2 && rest[..2] == "- "
    ensures SearchFrom(pre + rest, 0) == SearchFrom(pre + rest, |pre| + 2)
  {
    var body := pre + rest;
    LabelShape();
    NoStartBeforeDash(pre, rest, SessionIdLabel);
    forall k | 0 <= k < |pre| + 2 ensures !StartsWith(body[k..], SessionIdLabel + SessionPrefix) {
      StartsWithLonger(body[k..], SessionIdLabel, SessionPrefix);
    }
    SearchSkipsUnlabeled(body, 0, |pre| + 2);
  }

  /**
   * The id written by the session-started line is the id read back, whatever
   * follows the line, provided the text before it holds no other label (the
   * heading of the started comment holds none).
   */
  lemma SessionIdLineRoundTrip(pre: string, id: string, post: string)
    requires !Contains(pre, SessionIdLabel)
    requires IsSessionName(id)
    ensures SearchSessionId(pre + SessionIdLine(id) + post) == Some(id)
  {
    LineShape(id);
    LeadThenMatch(pre, SessionIdLine(id), post, id);
  }

  /** Text without a label, then "- " and a full match, then anything: the search finds that match. */
  lemma LeadThenMatch(pre: string, line: string, post: string, id: string)
    requires !Contains(pre, SessionIdLabel)
    requires IsSessionName(id)
    requires |line| >= 2 && line[..2] == "- " && line[2..] == SessionIdLabel + id + "`"
    ensures SearchFrom(pre + line + post, 0) == Some(id)
  {
    var body := pre + line + post;
    var rest := line + post;
    assert body == pre + rest;
    assert rest[..2] == "- ";
    SearchSkipsLead(pre, rest);
    var needle := line[2..];
    assert body[|pre| + 2..|pre| + 2 + |needle|] == needle;
    MatchAtFinds(body, |pre| + 2, id);
  }

  lemma LineShape(id: string)
    ensures var line := SessionIdLine(id);
      |line| >= 2 && line[..2] == "- " && line[2..] == SessionIdLabel + id + "`"
  {
  }

  /** An issue comment; a comment without a body reads as "". */
  datatype Comment = Comment(body: string)

  /** The id recorded in the first comment that holds one. */
  function FirstSessionId(comments: seq<Comment>): (r: Option<string>)
    ensures r.None? <==> forall k :: 0 <= k < |comments| ==> SearchSessionId(comments[k].body).None?
    ensures forall k :: (0 <= k < |comments| && SearchSessionId(comments[k].body).Some? &&
      forall j :: 0 <= j < k ==> SearchSessionId(comments[j].body).None?) ==> r == SearchSessionId(comments[k].body)
    decreases |comments|
  {
    if comments == [] then None
    else
      var m := SearchSessionId(comments[0].body);
      if m.Some? then m
      else
        var r := FirstSessionId(comments[1..]);
        assert forall k :: 1 <= k < |comments| ==> comments[k] == comments[1..][k - 1];
        r
  }

  /** `extract_session_id_from_comments`. */
  method ExtractSessionIdFromComments(comments: seq<Comment>) returns (id: Option<string>)
    ensures id == FirstSessionId(comments)
    ensures id.Some? ==> IsSessionName(id.value)
  {
    for i := 0 to |comments|
      invariant forall j :: 0 <= j < i ==> SearchSessionId(comments[j].body).None?
    {
      var found := SearchSessionId(comments[i].body);
      if found.Some? {
        return found;
      }
    }
    return None;
  }

  /** The heading of the comment `start_issue_session` posts, up to the session line. */
  const StartedHeading := "\U{F8FF}\U{00FC}\U{00F6}\U{00C4} **Jules " + "Session " + "Started!**" + "\n\nI have "
    + "successfully " + "created a " + "session to " + "work on " + "this issue.\n"

  const StartedFooter := "I will now analyze the codebase and generate a plan. "
    + "(Note: Future updates will appear here automatically when implemented)."

  /** The comment `start_issue_session` posts once the session exists. */
  function StartedComment(id: string, title: string): string {
    StartedHeading + SessionIdLine(id) + StartedTail(title)
  }

  function StartedTail(title: string): string {
    "\n- **Prompt:** " + title + "\n\n" + StartedFooter
  }

  lemma HeadingHasNoBacktick()
    ensures '`' !in StartedHeading
  {
    assert '`' !in "\U{F8FF}\U{00FC}\U{00F6}\U{00C4} **Jules ";
    assert '`' !in "Session ";
    assert '`' !in "Started!**";
    assert '`' !in "\n\nI have ";
    assert '`' !in "successfully ";
    assert '`' !in "created a ";
    assert '`' !in "session to ";
    assert '`' !in "work on ";
    assert '`' !in "this issue.\n";
  }

  /** A string lacking a character of `needle` does not contain `needle`. */
  lemma {:induction false} MissingCharNotContained(s: string, needle: string, c: char)
    requires c in needle && c !in s
    ensures !Contains(s, needle)
    decreases |s|
  {
    if s != [] {
      MissingCharNotContained(s[1..], needle, c);
    }
  }

  /** Whatever the title, the session id in the started comment is the id read back. */
  lemma StartedCommentRoundTrip(id: string, title: string)
    requires IsSessionName(id)
    ensures SearchSessionId(StartedComment(id, title)) == Some(id)
  {
    HeadingLacksLabel();
    SessionIdLineRoundTrip(StartedHeading, id, StartedTail(title));
  }

  lemma HeadingLacksLabel()
    ensures !Contains(StartedHeading, SessionIdLabel)
  {
    HeadingHasNoBacktick();
    assert SessionIdLabel[16] == '`';
    MissingCharNotContained(StartedHeading, SessionIdLabel, '`');
  }

  /** The comments of the unit test: a comment without a session, then the started comment. */
  lemma ExtractFindsStartedSession(id: string, title: string)
    requires IsSessionName(id)
    ensures FirstSessionId([Comment("No session here"), Comment(StartedComment(id, title))]) == Some(id)
  {
    StarFreeHasNoSessionId("No session here");
    StartedCommentRoundTrip(id, title);
  }

  // ---------------------------------------------------------------- open issues

  /** An element of the REST issue list; pull requests are the elements with a `pull_request` key. */
  datatype RawIssue = RawIssue(number: Option<int>, title: Option<string>, body: Option<string>,
                               userLogin: Option<string>, isPullRequest: bool)

  /** The summary the bridge keeps of an issue. */
  datatype Issue = Issue(number: Option<int>, title: Option<string>, body: Option<string>, authorLogin: Option<string>)

  function Summary(raw: RawIssue): Issue {
    Issue(raw.number, raw.title, raw.body, raw.userLogin)
  }

  predicate IsIssue(raw: RawIssue) {
    !raw.isPullRequest
  }

  /** The decoded command output: a JSON array of issues, or anything else. */
  datatype IssuesJson = IssueArray(items: seq<RawIssue>) | NotAnArray

  /** The summaries of the real issues among the items, in their order. */
  function OpenIssuesOf(items: seq<RawIssue>): (r: seq<Issue>)
    ensures |r| <= |items|
    ensures forall issue :: issue in r <==> exists raw :: raw in items && IsIssue(raw) && Summary(raw) == issue
  {
    var kept := Filter(items, IsIssue);
    var r := Map(kept, Summary);
    forall issue ensures issue in r <==> exists raw :: raw in items && IsIssue(raw) && Summary(raw) == issue {
      if issue in r {
        var k :| 0 <= k < |r| && r[k] == issue;
        FilterMembers(items, IsIssue, kept[k]);
      }
      if raw :| raw in items && IsIssue(raw) && Summary(raw) == issue {
        FilterMembers(items, IsIssue, raw);
        var k :| 0 <= k < |kept| && kept[k] == raw;
        assert r[k] == issue;
      }
    }
    r
  }

  /** Issues keep their relative order: the list of a concatenation is the concatenation of the lists. */
  lemma OpenIssuesOfConcat(a: seq<RawIssue>, b: seq<RawIssue>)
    ensures OpenIssuesOf(a + b) == OpenIssuesOf(a) + OpenIssuesOf(b)
  {
    FilterConcat(a, b, IsIssue);
    MapConcat(Filter(a, IsIssue), Filter(b, IsIssue), Summary);
  }

  /** With no pull request among them, every item is listed, in place. */
  lemma OpenIssuesOfPlainIssues(items: seq<RawIssue>)
    requires forall k :: 0 <= k < |items| ==> IsIssue(items[k])
    ensures |OpenIssuesOf(items)| == |items|
    ensures forall k :: 0 <= k < |items| ==> OpenIssuesOf(items)[k] == Summary(items[k])
  {
    FilterAllKept(items, IsIssue);
  }

  /** `list_open_issues`, given the command output and `json.loads` (`None` for a decode error). */
  function ListOpenIssues(output: string, loads: string -> Option<IssuesJson>): (r: seq<Issue>)
    ensures output == "" ==> r == []
    ensures output != "" && loads(output).Some? && loads(output).value.IssueArray? ==>
      r == OpenIssuesOf(loads(output).value.items)
    ensures output != "" && !(loads(output).Some? && loads(output).value.IssueArray?) ==> r == []
  {
    if output == "" then []
    else
      match loads(output)
      case Some(IssueArray(items)) => OpenIssuesOf(items)
      case _ => []
  }

  // ---------------------------------------------------------------- next pending issue

  /** `find_session_id`: the id recorded in an issue's comments (`commentsOf` gives [] when the issue cannot be loaded). */
  function FindSessionId(issueNumber: int, commentsOf: int -> seq<Comment>): Option<string> {
    FirstSessionId(commentsOf(issueNumber))
  }

  /** The test inside `find_next_pending_issue`'s loop. */
  predicate IsPending(issue: Issue, repoOwner: string, commentsOf: int -> seq<Comment>) {
    && issue.number.Some? && issue.number.value != 0
    && IsRepoOwner(issue.authorLogin, repoOwner)
    && FindSessionId(issue.number.value, commentsOf).None?
  }

  /** The first pending issue, if any. */
  function NextPending(issues: seq<Issue>, repoOwner: string, commentsOf: int -> seq<Comment>): (r: Option<Issue>)
    ensures r.None? <==> forall k :: 0 <= k < |issues| ==> !IsPending(issues[k], repoOwner, commentsOf)
    ensures forall k :: (0 <= k < |issues| && IsPending(issues[k], repoOwner, commentsOf) &&
      forall j :: 0 <= j < k ==> !IsPending(issues[j], repoOwner, commentsOf)) ==> r == Some(issues[k])
    decreases |issues|
  {
    if issues == [] then None
    else if IsPending(issues[0], repoOwner, commentsOf) then Some(issues[0])
    else
      var r := NextPending(issues[1..], repoOwner, commentsOf);
      assert forall k :: 1 <= k < |issues| ==> issues[k] == issues[1..][k - 1];
      r
  }

  /** What `NextPending` returns is one of the issues, written by the owner, with no session recorded. */
  lemma NextPendingIsPending(issues: seq<Issue>, repoOwner: string, commentsOf: int -> seq<Comment>)
    ensures var r := NextPending(issues, repoOwner, commentsOf);
      r.Some? ==> r.value in issues && IsPending(r.value, repoOwner, commentsOf)
  {
    var r := NextPending(issues, repoOwner, commentsOf);
    if r.Some? {
      var k := FirstPendingIndex(issues, repoOwner, commentsOf);
      assert r == Some(issues[k]);
    }
  }

  lemma {:induction false} FirstPendingIndex(issues: seq<Issue>, repoOwner: string, commentsOf: int -> seq<Comment>)
      returns (k: nat)
    requires exists i :: 0 <= i < |issues| && IsPending(issues[i], repoOwner, commentsOf)
    ensures k < |issues| && IsPending(issues[k], repoOwner, commentsOf)
    ensures forall j :: 0 <= j < k ==> !IsPending(issues[j], repoOwner, commentsOf)
    decreases |issues|
  {
    if IsPending(issues[0], repoOwner, commentsOf) {
      k := 0;
    } else {
      var i :| 0 <= i < |issues| && IsPending(issues[i], repoOwner, commentsOf);
      assert issues[1..][i - 1] == issues[i];
      var k' := FirstPendingIndex(issues[1..], repoOwner, commentsOf);
      k := k' + 1;
      assert forall j :: 1 <= j < k ==> issues[j] == issues[1..][j - 1];
    }
  }

  /** `find_next_pending_issue`, over the already listed open issues. */
  method FindNextPendingIssue(openIssues: seq<Issue>, repoOwner: string, commentsOf: int -> seq<Comment>)
      returns (pending: Option<Issue>)
    ensures pending == NextPending(openIssues, repoOwner, commentsOf)
  {
    for i := 0 to |openIssues|
      invariant forall j :: 0 <= j < i ==> !IsPending(openIssues[j], repoOwner, commentsOf)
    {
      var issue := openIssues[i];
      var issueNumber := issue.number;
      if issueNumber.None? || issueNumber.value == 0 {
        continue;
      }
      if !IsRepoOwner(issue.authorLogin, repoOwner) {
        continue;
      }
      var recorded := ExtractSessionIdFromComments(commentsOf(issueNumber.value));
      if recorded.Some? {
        continue;
      }
      return Some(Issue(issueNumber, issue.title, issue.body, issue.authorLogin));
    }
    return None;
  }

  // ---------------------------------------------------------------- events

  /** The parts of the event payload the bridge reads: `inputs.issue_number`, `action` and `issue`. */
  datatype EventData = EventData(issueNumberInput: Option<string>, action: Option<string>, issue: RawIssue)

  /** `resolve_issue_for_event`; `loadIssue` stands for `get_issue_from_dispatch`, and the schedule branch searches `openIssues`. */
  method ResolveIssueForEvent(eventName: string, event: EventData, fullRepo: string,
                              loadIssue: string -> Option<Issue>, openIssues: seq<Issue>,
                              commentsOf: int -> seq<Comment>)
      returns (action: Option<string>, issue: Option<Issue>)
    ensures action.None? ==> issue.None?
    ensures action.Some? ==> action.value == "opened" || action.value == "created"
    ensures eventName == "workflow_dispatch" ==>
      if Present(event.issueNumberInput) then action == Some("opened") && issue == loadIssue(event.issueNumberInput.value)
      else action.None?
    ensures eventName == "schedule" ==>
      var pending := NextPending(openIssues, Split(fullRepo, '/')[0], commentsOf);
      && (action.None? <==> pending.None?)
      && (pending.Some? ==> action == Some("opened"))
      && issue == pending
    ensures eventName == "schedule" && issue.Some? ==>
      IsRepoOwner(issue.value.authorLogin, Split(fullRepo, '/')[0]) &&
      issue.value.number.Some? && FindSessionId(issue.value.number.value, commentsOf).None?
    ensures eventName != "workflow_dispatch" && eventName != "schedule" ==>
      if event.action == Some("opened") || event.action == Some("created") then
        action == event.action && issue == Some(Summary(event.issue))
      else action.None?
  {
    if eventName == "workflow_dispatch" {
      var issueNumber := event.issueNumberInput;
      if !Present(issueNumber) {
        return None, None;
      }
      return Some("opened"), loadIssue(issueNumber.value);
    }
    if eventName == "schedule" {
      var pending := FindNextPendingIssue(openIssues, Split(fullRepo, '/')[0], commentsOf);
      NextPendingIsPending(openIssues, Split(fullRepo, '/')[0], commentsOf);
      if pending.None? {
        return None, None;
      }
      return Some("opened"), pending;
    }
    var eventAction := event.action;
    if !(eventAction == Some("opened") || eventAction == Some("created")) {
      return None, None;
    }
    return eventAction, Some(Summary(event.issue));
  }

  // ---------------------------------------------------------------- queue comment

  /** Marks a queue-status comment. */
  const QueueMarker := "<!-- jules-queue -->"
  /** The first line, kept as the source spells it: an hourglass emoji decoded in the wrong code page. */
  const BusyHeader := "\U{201A}\U{00E8}\U{2265} **Jules is busy for this repository.**"
  const QueuedNote := "This issue has been queued" + " and will be retried automatically once the active session finishes."
  const UrlLabel := "- **Session URL:** "

  /** `busy_session.get("name", "unknown")`. */
  function SessionLabel(busy: Session): string {
    if busy.name.Some? then busy.name.value else "unknown"
  }

  /** `busy_session.get("state", "UNKNOWN")`. */
  function StateLabel(busy: Session): string {
    if busy.state.Some? then busy.state.value else "UNKNOWN"
  }

  function ActiveIdLine(busy: Session): string {
    "- **Active Session ID:** `" + SessionLabel(busy) + "`"
  }

  function StateLine(busy: Session): string {
    "- **State:** `" + StateLabel(busy) + "`"
  }

  lemma DiffersAt(s: string, prefix: string, k: nat)
    requires k < |prefix| && k < |s| && s[k] != prefix[k]
    ensures !StartsWith(s, prefix)
  {
    if |prefix| <= |s| {
      assert s[..|prefix|][k] == s[k];
    }
  }

  /** The lines of the queue comment, in order. */
  function QueueLines(busy: Session): (lines: seq<string>)
    ensures |lines| == (if Present(busy.url) then 8 else 7)
    ensures lines[0] == BusyHeader && lines[3] == ActiveIdLine(busy)
    ensures lines[|lines| - 2..] == ["", QueueMarker]
    ensures Present(busy.url) ==> lines[5] == UrlLabel + busy.url.value
  {
    var head := [BusyHeader, "", QueuedNote, ActiveIdLine(busy), StateLine(busy)];
    var urlLines := if Present(busy.url) then [UrlLabel + busy.url.value] else [];
    head + urlLines + ["", QueueMarker]
  }

  /** The comment has a session URL line exactly when the session has a URL. */
  lemma UrlLineOnlyWithUrl(busy: Session)
    ensures (exists k :: 0 <= k < |QueueLines(busy)| && StartsWith(QueueLines(busy)[k], UrlLabel)) <==> Present(busy.url)
  {
    var lines := QueueLines(busy);
    assert BusyHeader[0] == '\U{201A}';
    DiffersAt(BusyHeader, UrlLabel, 0);
    assert QueuedNote[0] == 'T';
    DiffersAt(QueuedNote, UrlLabel, 0);
    DiffersAt(ActiveIdLine(busy), UrlLabel, 4);
    DiffersAt(StateLine(busy), UrlLabel, 5);
    assert QueueMarker[0] == '<';
    DiffersAt(QueueMarker, UrlLabel, 0);
    if Present(busy.url) {
      assert lines[5][..|UrlLabel|] == UrlLabel;
    } else {
      assert lines == [BusyHeader, "", QueuedNote, ActiveIdLine(busy), StateLine(busy), "", QueueMarker];
    }
  }

  /** The comment text: the lines joined by newlines; it always ends with the marker line. */
  function QueueComment(busy: Session): (r: string)
    ensures EndsWith(r, "\n" + QueueMarker)
  {
    var lines := QueueLines(busy);
    var n := |lines|;
    assert lines == lines[..n - 1] + [QueueMarker];
    JoinAppend(lines[..n - 1], QueueMarker, '\n');
    Join(lines, '\n')
  }

  /** The comment names the busy session between backticks ("sessions/999"). */
  lemma QueueCommentNamesSession(busy: Session)
    ensures Contains(QueueComment(busy), "`" + SessionLabel(busy) + "`")
  {
    var lines := QueueLines(busy);
    var r := Join(lines, '\n');
    var at := JoinPieceAt(lines, '\n', 3);
    var idLabel := "- **Active Session ID:** ";
    var needle := "`" + SessionLabel(busy) + "`";
    assert lines[3] == idLabel + needle;
    assert r[at + |idLabel|..at + |idLabel| + |needle|] == lines[3][|idLabel|..];
    ContainsAt(r, needle, at + |idLabel|);
  }

  /** `issue_has_queue_comment`: some comment carries the queue marker. */
  predicate HasQueueComment(comments: seq<Comment>) {
    exists c :: c in comments && Contains(c.body, QueueMarker)
  }

  /**
   * `queue_issue`: posts the queue comment unless one is there already; the
   * result is the posted body, or `None` when nothing is posted.
   */
  method QueueIssue(existing: seq<Comment>, busy: Session) returns (posted: Option<string>)
    ensures posted.None? <==> HasQueueComment(existing)
    ensures posted.Some? ==> posted.value == QueueComment(busy)
  {
    if HasQueueComment(existing) {
      return None;
    }
    var sessionId := SessionLabel(busy);
    var sessionState := StateLabel(busy);
    var sessionUrl := busy.url;
    var commentLines := [
      BusyHeader,
      "",
      QueuedNote,
      "- **Active Session ID:** `" + sessionId + "`",
      "- **State:** `" + sessionState + "`"
    ];
    if Present(sessionUrl) {
      commentLines := commentLines + [UrlLabel + sessionUrl.value];
    }
    commentLines := commentLines + ["", QueueMarker];
    assert commentLines == QueueLines(busy);
    return Some(Join(commentLines, '\n'));
  }

  /** Once the queue comment is posted, queueing the issue again posts nothing. */
  lemma QueueIssueOnce(existing: seq<Comment>, busy: Session)
    ensures HasQueueComment(existing + [Comment(QueueComment(busy))])
  {
    var r := QueueComment(busy);
    EndsWithContains(r, "\n", QueueMarker);
    assert Comment(r) in existing + [Comment(r)];
  }
}
