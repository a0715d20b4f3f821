/**
 * The identity-guessing helpers of `generators/app/git-helper.js`. Every shell
 * command and the HTTP request are inputs here: a `Shell` holds what the
 * commands would print, and `fetch` maps a URL to what the request would give.
 * What remains is the decision logic: parsing `git log` lines, matching them
 * against `user.name`, scanning `gh auth status` for a handle, taking the owner
 * out of the remote URL, the fallback chain and the merge with the API answer.
 */
module GitHelper {
  import opened JsStrings

  // ---------------------------------------------------------------------------
  // Command output
  // ---------------------------------------------------------------------------

  /**
   * What the commands print. A command that exits with a non-zero status (an
   * unset git key, no repository, not logged in to `gh`) makes `execSync` throw:
   * that is a key absent from `config`, or `None`.
   */
  datatype Shell = Shell(
    config: map<string, string>,  // standard output of `git config <key>`, for every key that is set
    commitLog: Option<string>,    // standard output of the `git log` over noreply commits, oldest first
    authStatus: Option<string>)   // standard output and error of `gh auth status -h github.com`

  const RemoteKey := "remote.origin.url"

  /** `getGitConfig(key)`: the trimmed value of a git setting, `''` when the command fails. */
  function GetGitConfig(sh: Shell, key: string): (r: string)
    ensures key !in sh.config ==> r == ""
    ensures key in sh.config ==> IsTrimOf(r, sh.config[key], IsJsWhitespace)
  {
    if key in sh.config then TrimWhitespace(sh.config[key]) else ""
  }

  /** `git config` prints the value and a newline; the helper returns the value. */
  lemma GetGitConfigValue(sh: Shell, key: string, v: string)
    requires key in sh.config && sh.config[key] == v + "\n"
    requires v == [] || (!IsJsWhitespace(v[0]) && !IsJsWhitespace(v[|v| - 1]))
    ensures GetGitConfig(sh, key) == v
  {
    TrimWhitespaceSuffix(v, "\n");
  }

  // ---------------------------------------------------------------------------
  // Searching the commit log
  // ---------------------------------------------------------------------------

  /** One `%an:%ae` record of the log. */
  datatype Committer = Committer(name: string, email: string)

  predicate IsNonEmpty(line: string) { line != [] }

  /** The log split at `'\n'`, empty lines dropped (`filter(Boolean)`). */
  function CommitLines(raw: string): (lines: seq<string>)
    ensures forall k :: 0 <= k < |lines| ==> lines[k] != [] && '\n' !in lines[k]
  {
    Filter(Split(raw, '\n'), IsNonEmpty)
  }

  /** A log of newline-terminated lines gives back exactly those lines. */
  lemma {:induction false} CommitLinesOfLog(lines: seq<string>)
    requires lines != []
    requires forall k :: 0 <= k < |lines| ==> lines[k] != [] && '\n' !in lines[k]
    ensures CommitLines(Join(lines, '\n') + "\n") == lines
  {
    var joined := Join(lines, '\n');
    assert joined + "\n" == joined + ['\n'] + [];
    SplitConcat(joined, [], '\n');
    SplitJoin(lines, '\n');
    FilterConcat(lines, [[]], IsNonEmpty);
    FilterAll(lines);
  }

  /** An empty log, as when no commit is by a noreply address, has no lines. */
  lemma CommitLinesOfEmptyLog()
    ensures CommitLines("") == []
  {
    assert Split("", '\n') == [[]];
  }

  lemma {:induction false} FilterAll(lines: seq<string>)
    requires forall k :: 0 <= k < |lines| ==> lines[k] != []
    ensures Filter(lines, IsNonEmpty) == lines
  {
    if lines != [] {
      FilterAll(lines[1..]);
      assert [lines[0]] + lines[1..] == lines;
    }
  }

  /**
   * One line, trimmed and split at `':'`: the name is the first field, the email
   * the second or `''` when there is none; further fields are ignored.
   */
  function ParseCommitter(line: string): (c: Committer)
    ensures ':' !in c.name && ':' !in c.email
  {
    var fields := Split(TrimWhitespace(line), ':');
    Committer(fields[0], if |fields| > 1 then fields[1] else "")
  }

  /** A line `name:email`, possibly followed by further `:` fields, gives back name and email. */
  lemma ParseCommitterFields(name: string, email: string, rest: string)
    requires ':' !in name && ':' !in email
    requires rest == [] || rest[0] == ':'
    requires var line := name + [':'] + email + rest;
      !IsJsWhitespace(line[0]) && !IsJsWhitespace(line[|line| - 1])
    ensures ParseCommitter(name + [':'] + email + rest) == Committer(name, email)
  {
    var line := name + [':'] + email + rest;
    assert TrimWhitespace(line) == line;
    assert line == name + ([':'] + email + rest);
    SplitHead(name, [':'] + email + rest, ':');
    assert line == name + [':'] + (email + rest);
    SplitSecond(name, email + rest, ':');
    SplitHead(email, rest, ':');
  }

  /** A line without `':'` is a name with the empty email. */
  lemma ParseCommitterNameOnly(line: string)
    requires ':' !in line
    requires line == [] || (!IsJsWhitespace(line[0]) && !IsJsWhitespace(line[|line| - 1]))
    ensures ParseCommitter(line) == Committer(line, "")
  {
    SplitWithoutSeparator(line, ':');
  }

  /** Every non-empty line of the log, parsed, oldest first. */
  function Committers(raw: string): (cs: seq<Committer>)
    ensures |cs| == |CommitLines(raw)|
    ensures forall k :: 0 <= k < |cs| ==> cs[k] == ParseCommitter(CommitLines(raw)[k])
  {
    var lines := CommitLines(raw);
    seq(|lines|, k requires 0 <= k < |lines| => ParseCommitter(lines[k]))
  }

  /**
   * A record matches when its name equals the configured `user.name` up to case
   * (`authorLower` is already lowered) and does not contain `[bot]`, compared with
   * case.
   */
  predicate IsMatch(c: Committer, authorLower: string): (m: bool)
    ensures m <==> && |c.name| == |authorLower|
                   && (forall k :: 0 <= k < |c.name| ==> LowerChar(c.name[k]) == authorLower[k])
                   && !Includes(c.name, "[bot]")
  {
    ToLowerCase(c.name) == authorLower && !Includes(c.name, "[bot]")
  }

  /** Names that agree up to case, neither containing `[bot]`, match the same user name. */
  lemma IsMatchIgnoresCase(c: Committer, d: Committer, authorLower: string)
    requires ToLowerCase(c.name) == ToLowerCase(d.name)
    requires !Includes(c.name, "[bot]") && !Includes(d.name, "[bot]")
    ensures IsMatch(c, authorLower) <==> IsMatch(d, authorLower)
  {
  }

  /** A record whose name contains `[bot]` never matches, whatever the user name. */
  lemma IsMatchExcludesBots(name: string, email: string, authorLower: string, a: string, b: string)
    requires name == a + "[bot]" + b
    ensures !IsMatch(Committer(name, email), authorLower)
  {
    IncludesInfix(a, "[bot]", b);
  }

  /** The records that match, in log order. */
  function Matching(cs: seq<Committer>, authorLower: string): (ms: seq<Committer>)
    ensures forall k :: 0 <= k < |ms| ==> IsMatch(ms[k], authorLower) && ms[k] in cs
    ensures ms == [] <==> forall k :: 0 <= k < |cs| ==> !IsMatch(cs[k], authorLower)
  {
    var keep := (c: Committer) => IsMatch(c, authorLower);
    var ms := Filter(cs, keep);
    assert forall k :: 0 <= k < |ms| ==> keep(ms[k]);
    assert (forall k :: 0 <= k < |cs| ==> !keep(cs[k])) <==> (forall k :: 0 <= k < |cs| ==> !IsMatch(cs[k], authorLower));
    ms
  }

  /** The part of an email before its first `@`, or all of it when there is none. */
  function LocalPart(email: string): (r: string)
    ensures '@' !in r && r <= email
    ensures '@' !in email ==> r == email
    ensures '@' in email ==> email[|r|] == '@'
  {
    SplitFirst(email, '@');
    Split(email, '@')[0]
  }

  /** The user name configured in git, lowered as the search compares it. */
  function AuthorLower(sh: Shell): (r: string)
    ensures |r| == |GetGitConfig(sh, "user.name")|
    ensures forall k :: 0 <= k < |r| ==> !IsAsciiUpper(r[k])
  {
    ToLowerCase(GetGitConfig(sh, "user.name"))
  }

  /**
   * `searchCommitsForGitHubUsername()`: the local part of the email of the oldest
   * commit whose author matches `user.name`, or `''` when `git log` fails or
   * nothing matches.
   */
  function SearchCommitsForGitHubUsername(sh: Shell): (r: string)
    ensures '@' !in r
    ensures sh.commitLog.None? ==> r == ""
  {
    match sh.commitLog
    case None => ""
    case Some(raw) =>
      var matching := Matching(Committers(raw), AuthorLower(sh));
      if matching == [] then "" else LocalPart(matching[0].email)
  }

  /** When no record matches, the search gives `''`. */
  lemma SearchCommitsNoMatch(sh: Shell, raw: string)
    requires sh.commitLog == Some(raw)
    requires forall k :: 0 <= k < |Committers(raw)| ==> !IsMatch(Committers(raw)[k], AuthorLower(sh))
    ensures SearchCommitsForGitHubUsername(sh) == ""
  {
    var cs := Committers(raw);
    var lower := AuthorLower(sh);
    var keep := (c: Committer) => IsMatch(c, lower);
    assert forall k :: 0 <= k < |cs| ==> !keep(cs[k]);
  }

  /** Otherwise it gives the local part of the email of the oldest matching record. */
  lemma SearchCommitsOldestMatch(sh: Shell, raw: string, k: nat)
    requires sh.commitLog == Some(raw)
    requires k < |Committers(raw)| && IsMatch(Committers(raw)[k], AuthorLower(sh))
    requires forall j :: 0 <= j < k ==> !IsMatch(Committers(raw)[j], AuthorLower(sh))
    ensures SearchCommitsForGitHubUsername(sh) == LocalPart(Committers(raw)[k].email)
  {
    MatchingFirst(Committers(raw), AuthorLower(sh), k);
  }

  lemma MatchingFirst(cs: seq<Committer>, authorLower: string, k: nat)
    requires k < |cs| && IsMatch(cs[k], authorLower)
    requires forall j :: 0 <= j < k ==> !IsMatch(cs[j], authorLower)
    ensures Matching(cs, authorLower) != [] && Matching(cs, authorLower)[0] == cs[k]
  {
    FilterFirst(cs, (c: Committer) => IsMatch(c, authorLower), k);
  }

  // ---------------------------------------------------------------------------
  // Scanning `gh auth status`
  // ---------------------------------------------------------------------------

  /** The literal part of `/ogged in to github\.com as ([a-zA-Z-_]+).+/` before the group. */
  const AuthMarker := "ogged in to github.com as "

  /** The class `[a-zA-Z-_]`: ASCII letters, `-` and `_`. */
  predicate IsHandleChar(c: char) { IsAsciiLetter(c) || c == '-' || c == '_' }

  /**
   * The expression matches at `p` with a group of `len` characters: the marker,
   * then `len >= 1` handle characters, then at least one character that `.`
   * matches.
   */
  predicate MarkerAt(s: string, p: nat) {
    p + |AuthMarker| <= |s| && s[p..p + |AuthMarker|] == AuthMarker
  }

  predicate MatchesWith(s: string, p: nat, len: nat) {
    var q := p + |AuthMarker|;
    && MarkerAt(s, p)
    && q + len < |s|
    && len >= 1
    && (forall k :: q <= k < q + len ==> IsHandleChar(s[k]))
    && !IsLineTerminator(s[q + len])
  }

  /** The longest run of handle characters starting at `q`. */
  function HandleRun(s: string, q: nat): (n: nat)
    requires q <= |s|
    ensures q + n <= |s|
    ensures forall k :: q <= k < q + n ==> IsHandleChar(s[k])
    ensures q + n == |s| || !IsHandleChar(s[q + n])
    decreases |s| - q
  {
    if q < |s| && IsHandleChar(s[q]) then 1 + HandleRun(s, q + 1) else 0
  }

  /**
   * What the expression captures when it is tried at `p`. The group takes the
   * whole run of handle characters; when no character that `.` matches follows
   * it, backtracking gives one back so that `.+` can take it.
   */
  function CaptureAt(s: string, p: nat): (h: Option<string>)
    requires p <= |s|
    ensures h.Some? ==> var q := p + |AuthMarker|;
      && MatchesWith(s, p, |h.value|)
      && h.value == s[q..q + |h.value|]
      && forall len: nat :: MatchesWith(s, p, len) ==> len <= |h.value|
    ensures h.None? ==> forall len: nat :: !MatchesWith(s, p, len)
  {
    match CaptureLength(s, p)
    case Some(n) => Some(s[p + |AuthMarker|..p + |AuthMarker| + n])
    case None => None
  }

  /** The length of the group when the expression is tried at `p`. */
  function CaptureLength(s: string, p: nat): (n: Option<nat>)
    requires p <= |s|
    ensures n.Some? ==>
      && MatchesWith(s, p, n.value)
      && forall len: nat :: MatchesWith(s, p, len) ==> len <= n.value
    ensures n.None? ==> forall len: nat :: !MatchesWith(s, p, len)
  {
    var q := p + |AuthMarker|;
    if MarkerAt(s, p) then
      var n := HandleRun(s, q);
      if n >= 1 && q + n < |s| && !IsLineTerminator(s[q + n]) then Some(n)
      else if n >= 2 then Some(n - 1)
      else None
    else None
  }

  /** The search tries each start position from `p` on and keeps the first that matches. */
  function MatchFrom(s: string, p: nat): (h: Option<string>)
    requires p <= |s|
    ensures h.Some? ==> h.value != [] && forall k :: 0 <= k < |h.value| ==> IsHandleChar(h.value[k])
    decreases |s| - p
  {
    match CaptureAt(s, p)
    case Some(h) => Some(h)
    case None => if p == |s| then None else MatchFrom(s, p + 1)
  }

  lemma {:induction false} MatchFromLeftmost(s: string, p: nat, at: nat)
    requires p <= at <= |s| && CaptureAt(s, at).Some?
    requires forall j :: p <= j < at ==> CaptureAt(s, j).None?
    ensures MatchFrom(s, p) == CaptureAt(s, at)
    decreases at - p
  {
    if p < at {
      MatchFromLeftmost(s, p + 1, at);
    }
  }

  lemma {:induction false} MatchFromNone(s: string, p: nat)
    requires p <= |s|
    requires forall j :: p <= j <= |s| ==> CaptureAt(s, j).None?
    ensures MatchFrom(s, p).None?
    decreases |s| - p
  {
    if p < |s| {
      MatchFromNone(s, p + 1);
    }
  }

  /**
   * `guessGitHubUsernameUsingCli()`: the group of the first match in the output of
   * `gh auth status`, or `''` when the command fails or nothing matches.
   */
  function GuessGitHubUsernameUsingCli(sh: Shell): (r: string)
    ensures forall k :: 0 <= k < |r| ==> IsHandleChar(r[k])
    ensures sh.authStatus.None? ==> r == ""
  {
    match sh.authStatus
    case None => ""
    case Some(out) =>
      match MatchFrom(out, 0)
      case None => ""
      case Some(h) => h
  }

  /**
   * The probe gives the group of the leftmost match, and of the longest group the
   * expression allows there.
   */
  lemma CliLeftmostLongest(sh: Shell, out: string, p: nat, len: nat)
    requires sh.authStatus == Some(out)
    requires MatchesWith(out, p, len)
    requires forall len': nat :: MatchesWith(out, p, len') ==> len' <= len
    requires forall j: nat, len': nat :: j < p ==> !MatchesWith(out, j, len')
    ensures GuessGitHubUsernameUsingCli(sh) == out[p + |AuthMarker|..p + |AuthMarker| + len]
  {
    assert forall j :: 0 <= j < p ==> CaptureAt(out, j).None?;
    var h := CaptureAt(out, p);
    assert h.Some? && |h.value| == len;
    MatchFromLeftmost(out, 0, p);
  }

  /** When the expression matches nowhere, the probe gives `''`. */
  lemma CliNoMatch(sh: Shell, out: string)
    requires sh.authStatus == Some(out)
    requires forall j: nat, len: nat :: !MatchesWith(out, j, len)
    ensures GuessGitHubUsernameUsingCli(sh) == ""
  {
    assert forall j :: 0 <= j <= |out| ==> CaptureAt(out, j).None?;
    MatchFromNone(out, 0);
  }

  // ---------------------------------------------------------------------------
  // The owner in the remote URL
  // ---------------------------------------------------------------------------

  /**
   * The URL with its first `':'` turned into `'/'`, split at `'/'`: the second
   * piece, or `''` when there is none.
   */
  function OwnerSegment(url: string): (owner: string)
    ensures '/' !in owner
  {
    var parts := Split(ReplaceFirst(url, ':', '/'), '/');
    if |parts| > 1 then parts[1] else ""
  }

  /** The scp-like form `host:owner/repo` gives the owner. */
  lemma OwnerOfScpUrl(host: string, owner: string, rest: string)
    requires ':' !in host && '/' !in host && '/' !in owner
    requires rest == [] || rest[0] == '/'
    ensures OwnerSegment(host + [':'] + owner + rest) == owner
  {
    assert host + [':'] + owner + rest == host + [':'] + (owner + rest);
    ReplaceFirstAt(host, ':', '/', owner + rest);
    SplitSecond(host, owner + rest, '/');
    SplitFirst(owner + rest, '/');
    if rest != [] {
      IndexOfAfter(owner, '/', rest);
      assert (owner + rest)[..|owner|] == owner;
    } else {
      assert owner + rest == owner;
    }
  }

  /** A URL with a scheme, `scheme://host/owner/repo`, gives `''`: the piece after `:` is empty. */
  lemma OwnerOfSchemeUrl(scheme: string, rest: string)
    requires ':' !in scheme && '/' !in scheme
    ensures OwnerSegment(scheme + "://" + rest) == ""
  {
    var tail := ['/'] + (['/'] + rest);
    assert scheme + "://" + rest == scheme + [':'] + tail;
    ReplaceFirstAt(scheme, ':', '/', tail);
    SplitSecond(scheme, tail, '/');
    assert Split(tail, '/')[0] == [] by {
      assert tail != [] && tail[0] == '/';
    }
  }

  /** A value with neither `':'` nor `'/'` has no owner piece. */
  lemma OwnerOfPlainValue(url: string)
    requires ':' !in url && '/' !in url
    ensures OwnerSegment(url) == ""
  {
    SplitWithoutSeparator(url, '/');
  }

  /**
   * `git config remote.origin.url`, trimmed, as the two helpers that read it run
   * it themselves; `None` when the command fails, which they catch.
   */
  function RemoteUrl(sh: Shell): (url: Option<string>)
    ensures url.None? <==> RemoteKey !in sh.config
    ensures url.Some? ==> url.value == GetGitConfig(sh, RemoteKey)
  {
    if RemoteKey in sh.config then Some(TrimWhitespace(sh.config[RemoteKey])) else None
  }

  /** The owner of the remote, `''` when the command fails. */
  function RemoteOwner(sh: Shell): (owner: string)
    ensures owner == OwnerSegment(GetGitConfig(sh, RemoteKey))
  {
    match RemoteUrl(sh)
    case None => assert OwnerSegment("") == "" by { SplitWithoutSeparator("", '/'); } ""
    case Some(url) => OwnerSegment(url)
  }

  /**
   * `guessGitHubUsername()`: the commit search, else the `gh` probe, else the
   * owner of the remote URL; each later source is consulted only when all earlier
   * ones gave `''`.
   */
  function GuessGitHubUsername(sh: Shell): (r: string)
    ensures r == "" <==> (SearchCommitsForGitHubUsername(sh) == ""
                          && GuessGitHubUsernameUsingCli(sh) == ""
                          && RemoteOwner(sh) == "")
    ensures SearchCommitsForGitHubUsername(sh) != "" ==> r == SearchCommitsForGitHubUsername(sh)
    ensures SearchCommitsForGitHubUsername(sh) == "" && GuessGitHubUsernameUsingCli(sh) != "" ==>
      r == GuessGitHubUsernameUsingCli(sh)
    ensures SearchCommitsForGitHubUsername(sh) == "" && GuessGitHubUsernameUsingCli(sh) == "" ==>
      r == RemoteOwner(sh)
  {
    var fromCommits := SearchCommitsForGitHubUsername(sh);
    if fromCommits != "" then fromCommits
    else
      var fromCli := GuessGitHubUsernameUsingCli(sh);
      if fromCli != "" then fromCli
      else RemoteOwner(sh)
  }

  /** Shells that agree on the first source that gives a name agree on the guess. */
  lemma GuessGitHubUsernameFirstSource(sh1: Shell, sh2: Shell)
    requires SearchCommitsForGitHubUsername(sh1) == SearchCommitsForGitHubUsername(sh2)
    requires SearchCommitsForGitHubUsername(sh1) == "" ==>
      GuessGitHubUsernameUsingCli(sh1) == GuessGitHubUsernameUsingCli(sh2)
    requires SearchCommitsForGitHubUsername(sh1) == "" && GuessGitHubUsernameUsingCli(sh1) == "" ==>
      RemoteOwner(sh1) == RemoteOwner(sh2)
    ensures GuessGitHubUsername(sh1) == GuessGitHubUsername(sh2)
  {
  }

  // ---------------------------------------------------------------------------
  // The GitHub API
  // ---------------------------------------------------------------------------

  const ApiBase := "https://api.github.com/"

  /**
   * The value `response.json()` gives, as far as the helpers look at it: `null`,
   * another primitive (truthy or not), or an object with the string fields
   * `name` and `login` when present.
   */
  datatype Json = Null | Primitive(truthy: bool) | Object(name: Option<string>, login: Option<string>)

  /** What `fetch` gives: a rejection, or a response whose body parses (`Some`) or does not. */
  datatype FetchOutcome = Rejected | Response(status: int, body: Option<Json>)

  /** JavaScript truthiness: everything except `null` and the falsy primitives. */
  predicate IsTruthy(j: Json): (b: bool)
    ensures b <==> j != Null && j != Primitive(false)
  {
    match j
    case Null => false
    case Primitive(t) => t
    case Object(_, _) => true
  }

  /**
   * `getGitHubApiEndpoint(endpoint)`: the parsed body of a status-200 answer, and
   * `null` for any other status, a rejected request or a body that does not parse.
   */
  function GetGitHubApiEndpoint(fetch: string -> FetchOutcome, endpoint: string): (j: Json)
    ensures j != Null ==> fetch(ApiBase + endpoint) == Response(200, Some(j))
    ensures (fetch(ApiBase + endpoint).Response? && fetch(ApiBase + endpoint).status == 200
             && fetch(ApiBase + endpoint).body.Some?) ==> j == fetch(ApiBase + endpoint).body.value
  {
    match fetch(ApiBase + endpoint)
    case Rejected => Null
    case Response(status, body) =>
      if status == 200 then
        match body
        case None => Null
        case Some(j) => j
      else Null
  }

  /** `value || fallback` for a field that is a string or absent. */
  function OrDefault(value: Option<string>, fallback: string): (r: string)
    ensures r == fallback || (value == Some(r) && r != "")
    ensures value.Some? && value.value != "" ==> r == value.value
    ensures (value.None? || value.value == "") ==> r == fallback
  {
    if value.Some? && value.value != "" then value.value else fallback
  }

  /** What the organisation lookup gives: `null` when there is no remote or no owner. */
  function OrgLookup(sh: Shell, fetch: string -> FetchOutcome): (j: Json)
    ensures RemoteOwner(sh) == "" ==> j == Null
    ensures RemoteOwner(sh) != "" ==> j == GetGitHubApiEndpoint(fetch, "orgs/" + RemoteOwner(sh))
  {
    var owner := RemoteOwner(sh);
    if owner == "" then Null else GetGitHubApiEndpoint(fetch, "orgs/" + owner)
  }

  /**
   * `guessGitHubVendorInfo(authorName, username)`: the name and login of the
   * organisation that owns the remote, each falling back on its own to the given
   * value.
   */
  function GuessGitHubVendorInfo(sh: Shell, fetch: string -> FetchOutcome, authorName: string, username: string)
    : (info: (string, string))
    ensures info.0 == authorName || (OrgLookup(sh, fetch).Object? && OrgLookup(sh, fetch).name == Some(info.0))
    ensures info.1 == username || (OrgLookup(sh, fetch).Object? && OrgLookup(sh, fetch).login == Some(info.1))
    ensures !IsTruthy(OrgLookup(sh, fetch)) ==> info == (authorName, username)
  {
    match RemoteUrl(sh)
    case None => (authorName, username)
    case Some(url) =>
      var owner := OwnerSegment(url);
      if owner == "" then (authorName, username)
      else
        var response := GetGitHubApiEndpoint(fetch, "orgs/" + owner);
        if !IsTruthy(response) then (authorName, username)
        else if response.Object? then (OrDefault(response.name, authorName), OrDefault(response.login, username))
        else (authorName, username)
  }

  /** The pair given back whenever the remote has no owner, as for an `https://` URL. */
  lemma VendorInfoWithoutOwner(sh: Shell, fetch: string -> FetchOutcome, authorName: string, username: string)
    requires RemoteOwner(sh) == ""
    ensures GuessGitHubVendorInfo(sh, fetch, authorName, username) == (authorName, username)
  {
  }

  /** A successful lookup of the owner's organisation supplies each non-empty field. */
  lemma VendorInfoFromOrg(sh: Shell, fetch: string -> FetchOutcome, authorName: string, username: string,
                          name: Option<string>, login: Option<string>)
    requires RemoteOwner(sh) != ""
    requires fetch(ApiBase + "orgs/" + RemoteOwner(sh)) == Response(200, Some(Object(name, login)))
    ensures GuessGitHubVendorInfo(sh, fetch, authorName, username)
            == (OrDefault(name, authorName), OrDefault(login, username))
  {
    assert ApiBase + ("orgs/" + RemoteOwner(sh)) == ApiBase + "orgs/" + RemoteOwner(sh);
  }

  /** Any answer other than a parsed 200 leaves the given pair. */
  lemma VendorInfoFailedLookup(sh: Shell, fetch: string -> FetchOutcome, authorName: string, username: string)
    requires RemoteOwner(sh) != ""
    requires var outcome := fetch(ApiBase + "orgs/" + RemoteOwner(sh));
      outcome.Rejected? || outcome.status != 200 || outcome.body.None?
    ensures GuessGitHubVendorInfo(sh, fetch, authorName, username) == (authorName, username)
  {
    assert ApiBase + ("orgs/" + RemoteOwner(sh)) == ApiBase + "orgs/" + RemoteOwner(sh);
  }
}
