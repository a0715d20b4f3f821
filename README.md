# Identity and naming logic of the package generator

This project models the part of the Yeoman package generator that carries logic
rather than I/O or prompting:

- the two text normalisers, `slugify` and `toNamespace`, in
  `generators/app/string-helper.js`;
- the identity guessing in `generators/app/git-helper.js`. It covers reading git
  settings, searching the commit log for the author's GitHub user name,
  scanning `gh auth status`, taking the owner out of the remote URL, the
  fallback chain between those three sources, the status-to-result mapping of
  the GitHub API call, and the field-by-field merge of an organisation's
  `name`/`login` with the author's defaults;
- in `generators/app/index.js`, the author record built by the constructor and
  `_getGitHubVendorInfo`, which turns the guessed vendor pair into a record whose
  slug and namespace are always derived from its final name.

Every function is pure. What `execSync` would print is a `Shell` value:
- a map from git keys to the output of `git config <key>`;
- an optional `git log` output;
- an optional `gh auth status` output.

A command that fails is a missing key or `None`. `fetch` is a parameter that
maps a URL to a `FetchOutcome`: a rejection, or a status with a body that
parses to a `Json` value or does not.

The files:
- `JsStrings.dfy` holds the JavaScript string built-ins the code uses:
  - ASCII `toLowerCase`;
  - `split` and `join` on one character;
  - `trim`, using ECMAScript's whitespace set;
  - `replace` of the first occurrence;
  - `includes`;
  - `filter`.
- `StringHelper.dfy`, `GitHelper.dfy` and `Generator.dfy` follow the three
  source files.

`toNamespace` keeps punctuation other than space and `-`: `"ACME Co."` gives
`"AcmeCo."`.

## Model

| member | source | states |
|---|---|---|
| JsStrings.Split | generators/app/string-helper.js:10 | `split` with a one-character separator gives at least one piece, and no piece contains the separator |
| JsStrings.SplitJoin | generators/app/git-helper.js:20 | splitting the join of separator-free pieces gives back exactly those pieces |
| JsStrings.JoinSplit | generators/app/git-helper.js:20 | joining the pieces of a split gives back the string |
| JsStrings.SplitConcat | generators/app/string-helper.js:10 | a separator splits a string into the pieces on its left followed by the pieces on its right |
| JsStrings.SplitCount | generators/app/string-helper.js:10 | there is one more piece than there are separators |
| JsStrings.SplitFirst | generators/app/git-helper.js:36 | the first piece is the whole string when the separator is absent, otherwise the prefix before its first occurrence |
| JsStrings.Trim | generators/app/git-helper.js:5 | the result is `s` minus a maximal prefix and suffix of dropped characters; it has no dropped character at either end; a string with kept characters at both ends is returned unchanged |
| JsStrings.TrimParts | generators/app/git-helper.js:5 | the input is a prefix of dropped characters, then the trimmed string, then a suffix of dropped characters |
| JsStrings.TrimKeeps | generators/app/string-helper.js:5 | any property every input character has holds of every character of the trimmed result |
| JsStrings.TrimWhitespaceSuffix | generators/app/git-helper.js:5 | `trim` removes trailing whitespace, such as the newline a command prints, after a value with no whitespace at its ends |
| JsStrings.Filter | generators/app/git-helper.js:21 | `filter` keeps only elements that pass and that occur in the input, and is empty exactly when no element passes |
| JsStrings.FilterFirst | generators/app/git-helper.js:30 | the first survivor of a filter is the earliest element that passes |
| JsStrings.FilterConcat | generators/app/git-helper.js:21 | filtering distributes over concatenation |
| JsStrings.IndexOf | generators/app/git-helper.js:66 | `indexOf` is -1 exactly when the character is absent, and otherwise is a position holding it with no earlier occurrence |
| JsStrings.ReplaceFirst | generators/app/git-helper.js:66 | `replace(':', '/')` changes only the first occurrence, and leaves a string without one unchanged |
| JsStrings.ReplaceFirstAt | generators/app/git-helper.js:66 | when `a` has no `from`, replacing in `a + from + b` gives `a + to + b` |
| JsStrings.ToLowerCase | generators/app/string-helper.js:3 | `toLowerCase` keeps the length and lowers each ASCII upper-case letter in place |
| JsStrings.TrimWhitespace | generators/app/git-helper.js:5 | `trim` removes a maximal prefix and suffix of ECMAScript whitespace and leaves none at either end |
| JsStrings.Includes | generators/app/git-helper.js:27 | `includes` holds exactly when `t` occurs in `s` at some position |
| JsStrings.IncludesInfix | generators/app/git-helper.js:27 | a string that contains `t` somewhere includes it |
| JsStrings.ToLowerCaseConcat | generators/app/string-helper.js:3 | lower-casing works character by character, so it distributes over concatenation |
| StringHelper.ReplaceDisallowedRuns | generators/app/string-helper.js:4 | after replacing runs outside `[a-z0-9-]` by `-`, every character is in `[a-z0-9-]` |
| StringHelper.ReplaceDisallowedRunsHyphens | generators/app/string-helper.js:4 | the replacement keeps each existing `-` and adds exactly one `-` per maximal disallowed run |
| StringHelper.ReplaceDisallowedRunsInPlace | generators/app/string-helper.js:4 | a maximal run of disallowed characters after slug characters becomes one `-` in the run's place, and the rest is replaced on its own |
| StringHelper.WordCharsReplaceDisallowedRuns | generators/app/string-helper.js:4 | the replacement loses no letter or digit |
| StringHelper.Slugify | generators/app/string-helper.js:1-6 | every character of a slug is in `[a-z0-9-]`, and a slug neither begins nor ends with `-` |
| StringHelper.SlugifyFixedPoint | generators/app/string-helper.js:2-5 | a string in `[a-z0-9-]*` without an edge `-` is its own slug |
| StringHelper.SlugifyIdempotent | generators/app/string-helper.js:2-5 | `slugify(slugify(s)) == slugify(s)` |
| StringHelper.SlugifyKeepsWordChars | generators/app/string-helper.js:2-5 | the letters and digits of the slug are exactly those of the lower-cased input, in order |
| StringHelper.SlugifyEmpty | generators/app/string-helper.js:2-5 | the slug is empty exactly when the input has no ASCII letter and no digit, as for `""`, `"!!!"` and `"---"` |
| StringHelper.SlugifySpacedHyphen | generators/app/string-helper.js:4 | `"a - b"` gives `"a---b"`: hyphens are not collapsed |
| StringHelper.SlugifyCompanyName | generators/app/string-helper.js:2-5 | `"ACME Co."` gives `"acme-co"` |
| StringHelper.Capitalize | generators/app/string-helper.js:11 | the first character is upper-cased, every later one lower-cased, and the length kept |
| StringHelper.CapitalizeEach | generators/app/string-helper.js:11 | `.map` capitalises every word, in place, and keeps the number of words |
| StringHelper.Concat | generators/app/string-helper.js:12 | every character of `.join('')` comes from one of the words |
| StringHelper.ConcatAppend | generators/app/string-helper.js:12 | joining two word lists is joining each and concatenating |
| StringHelper.ConcatAvoids | generators/app/string-helper.js:12 | a character in no word is not in the join |
| StringHelper.CapitalizeCase | generators/app/string-helper.js:11 | capitalising a word changes only case: the first character becomes upper case and the others lower case |
| StringHelper.RemoveHyphens | generators/app/string-helper.js:13 | no `-` is left after `replace(/-/g, '')` |
| StringHelper.ToNamespace | generators/app/string-helper.js:8-14 | the namespace form contains no space and no `-` |
| StringHelper.ToNamespaceSpace | generators/app/string-helper.js:10-12 | each space separates two parts that are normalised on their own and concatenated |
| StringHelper.ToNamespaceWord | generators/app/string-helper.js:11-13 | a word without spaces is capitalised first and loses its hyphens afterwards |
| StringHelper.ToNamespaceLetters | generators/app/string-helper.js:9-13 | up to case, the namespace form is the input without its spaces and hyphens: nothing else is removed, added or reordered |
| StringHelper.ToNamespaceEmpty | generators/app/string-helper.js:9-13 | `toNamespace("") == ""` |
| StringHelper.ToNamespaceJohnDoe | generators/app/string-helper.js:9-13 | `"john doe"` gives `"JohnDoe"` |
| StringHelper.ToNamespaceMaryJane | generators/app/string-helper.js:11-13 | `"mary-jane"` gives `"Maryjane"`: the hyphen goes only after capitalising |
| StringHelper.ToNamespaceHyphenatedName | generators/app/string-helper.js:9-13 | `"mary-jane smith"` gives `"MaryjaneSmith"` |
| StringHelper.ToNamespacePunctuation | generators/app/string-helper.js:9-13 | `"ACME Co."` gives `"AcmeCo."`: punctuation other than space and `-` passes through |
| GitHelper.GetGitConfig | generators/app/git-helper.js:3-9 | a failing `git config` gives `''`; otherwise the result is the output with surrounding whitespace trimmed |
| GitHelper.GetGitConfigValue | generators/app/git-helper.js:5 | a value printed with its newline is returned as the value |
| GitHelper.CommitLines | generators/app/git-helper.js:19-21 | the log lines kept are non-empty and contain no newline |
| GitHelper.CommitLinesOfLog | generators/app/git-helper.js:19-21 | a log of newline-terminated lines gives back exactly those lines, in order |
| GitHelper.CommitLinesOfEmptyLog | generators/app/git-helper.js:19-21 | an empty log, as when no commit is by a noreply address, has no lines |
| GitHelper.ParseCommitter | generators/app/git-helper.js:22-23 | the parsed name and email contain no `:` |
| GitHelper.ParseCommitterFields | generators/app/git-helper.js:23 | a line `name:email`, possibly followed by more `:` fields, gives that name and email; further fields are ignored |
| GitHelper.ParseCommitterNameOnly | generators/app/git-helper.js:23 | a line without `:` is a name with the default email `''` |
| GitHelper.Committers | generators/app/git-helper.js:22-29 | every kept line is parsed into one record, in log order |
| GitHelper.AuthorLower | generators/app/git-helper.js:13 | the lowered `user.name` keeps its length and has no upper-case letter |
| GitHelper.IsMatch | generators/app/git-helper.js:27 | a record matches exactly when its name lowers character by character to the lowered `user.name` and `[bot]`, compared with case, occurs nowhere in it |
| GitHelper.IsMatchIgnoresCase | generators/app/git-helper.js:27 | names that agree up to case, neither containing `[bot]`, match the same user name |
| GitHelper.IsMatchExcludesBots | generators/app/git-helper.js:27 | a name containing `[bot]` never matches |
| GitHelper.Matching | generators/app/git-helper.js:30 | the filtered records all match and come from the log, and there are none exactly when no record matches |
| GitHelper.LocalPart | generators/app/git-helper.js:36-37 | the user name is the prefix of the email before its first `@`, or the whole email when it has none |
| GitHelper.SearchCommitsForGitHubUsername | generators/app/git-helper.js:11-41 | the result never contains `@`, and a failing `git log` gives `''` |
| GitHelper.SearchCommitsNoMatch | generators/app/git-helper.js:30-34 | when no record's name equals `user.name` up to case without containing `[bot]`, the search gives `''` |
| GitHelper.SearchCommitsOldestMatch | generators/app/git-helper.js:27-37 | otherwise the search gives the local part of the email of the oldest matching record |
| GitHelper.HandleRun | generators/app/git-helper.js:48 | the longest run of `[a-zA-Z-_]` characters at a position |
| GitHelper.CaptureLength | generators/app/git-helper.js:48 | at a position, the group length is the longest for which the expression matches there, and there is none when no length matches |
| GitHelper.CaptureAt | generators/app/git-helper.js:48-49 | the captured group is the text after the marker of that longest match |
| GitHelper.MatchFromLeftmost | generators/app/git-helper.js:48 | `match` reports the first start position at which the expression matches |
| GitHelper.MatchFromNone | generators/app/git-helper.js:48-49 | `match` reports nothing when no position matches |
| GitHelper.MatchFrom | generators/app/git-helper.js:48 | `output.match` tries each start position in turn; a reported group is non-empty and made of `[a-zA-Z-_]` characters |
| GitHelper.GuessGitHubUsernameUsingCli | generators/app/git-helper.js:43-53 | the result contains only ASCII letters, `-` and `_`, and a failing `gh` gives `''` |
| GitHelper.CliLeftmostLongest | generators/app/git-helper.js:48-49 | the probe gives the group of the leftmost match, as long as the expression lets it be while a character other than a line terminator follows |
| GitHelper.CliNoMatch | generators/app/git-helper.js:49 | when the expression matches nowhere, the probe gives `''` |
| GitHelper.OwnerSegment | generators/app/git-helper.js:66-67 | the owner segment contains no `/` |
| GitHelper.OwnerOfScpUrl | generators/app/git-helper.js:66-67 | `host:owner/repo`, such as `git@github.com:owner/repo.git`, gives `owner` |
| GitHelper.OwnerOfSchemeUrl | generators/app/git-helper.js:66-67 | `scheme://host/owner/repo`, such as `https://github.com/owner/repo`, gives `''` because of the `//` |
| GitHelper.OwnerOfPlainValue | generators/app/git-helper.js:66-67 | a value without `:` and `/` gives `''` |
| GitHelper.RemoteUrl | generators/app/git-helper.js:63-65 | reading the remote fails exactly when `remote.origin.url` is unset, and otherwise gives the trimmed value |
| GitHelper.RemoteOwner | generators/app/git-helper.js:62-70 | the remote fallback is the owner segment of the trimmed remote URL, and `''` when reading it fails |
| GitHelper.GuessGitHubUsername | generators/app/git-helper.js:55-71 | the guess is the commit search's result when that is non-empty, else the CLI probe's when that is non-empty, else the remote owner; it is `''` exactly when all three give `''` |
| GitHelper.GuessGitHubUsernameFirstSource | generators/app/git-helper.js:55-61 | a later source affects the guess only when every earlier one gave `''` |
| GitHelper.IsTruthy | generators/app/git-helper.js:106 | a response is truthy exactly when it is neither `null` nor a falsy primitive |
| GitHelper.GetGitHubApiEndpoint | generators/app/git-helper.js:73-90 | the result is the parsed body of a status-200 answer, and `null` for any other status, a rejected request or a body that does not parse |
| GitHelper.OrDefault | generators/app/git-helper.js:110 | `value \|\| fallback`: a non-empty value wins, otherwise the fallback |
| GitHelper.OrgLookup | generators/app/git-helper.js:98-104 | the organisation lookup is made at `orgs/<owner>`, and is skipped when there is no owner |
| GitHelper.GuessGitHubVendorInfo | generators/app/git-helper.js:92-114 | each returned field is the given default or the organisation's field, and a lookup that is not truthy gives the given pair |
| GitHelper.VendorInfoWithoutOwner | generators/app/git-helper.js:100-102 | with no owner segment, the given pair is returned |
| GitHelper.VendorInfoFromOrg | generators/app/git-helper.js:104-110 | an organisation answer supplies `name` and `login`, each falling back on its own when absent or empty |
| GitHelper.VendorInfoFailedLookup | generators/app/git-helper.js:82-89 | a rejected request, a status other than 200 or an unparsable body leaves the given pair |
| Generator.NewAuthor | generators/app/index.js:23-27 | the author's name and email are the git settings `user.name` and `user.email`, and the user name is the guessed GitHub user name |
| Generator.VendorRecord | generators/app/index.js:37-42 | the record keeps the name and user name, and its slug and namespace are derived from the name |
| Generator.GetGitHubVendorInfo | generators/app/index.js:30-51 | the record takes the helper's pair unchanged, or on error the author's name and user name; slug and namespace always come from the final name |
| Generator.ResolveVendor | generators/app/index.js:32-42 | the helper is asked with exactly the author's name and user name, and its pair becomes the record's name and user name |
| Generator.VendorFallbackAgrees | generators/app/index.js:43-50 | the error record equals the record built from the helper's no-owner answer |
| Generator.VendorRecordForms | generators/app/index.js:40-41 | the record's slug is a fixed point of `slugify` in `[a-z0-9-]` with no edge `-`, and its namespace has no space and no `-` |
| Generator.VendorFromOrganisation | generators/app/index.js:32-41 | a named organisation renames the vendor, and slug and namespace are recomputed from the new name |

## Left out

- Case mapping is ASCII only. `toLowerCase` and `toUpperCase` also map non-ASCII letters in JavaScript. The slug alphabet, the commit-name comparison and `toNamespace` are therefore exact only for ASCII text.
- Running the commands and the request is not modelled. `execSync` and `fetch` are inputs, so their timing, environment and encoding are outside the model.
- The `--author='@users.noreply.github.com'` filter and the `--reverse` order are applied by git. The model takes the log as given, oldest record first.
- `2>&1` merges the two output streams of `gh auth status`. The model takes the merged text as one string.
- HTTP, the request headers and JSON parsing are not modelled. A body either parses to a `Json` value or does not.
- In a `Json` object, `name` and `login` are modelled as strings or absent. A field holding another JSON type, such as a number, is not represented.
- `async`/`await` is treated as an ordinary call.
- Generator.GetGitHubVendorInfo takes the settled helper call as an `Option`. In JavaScript the `catch` branch at `generators/app/index.js:43-50` is reached when `slugify` or `toNamespace` throws, as they do on a truthy non-string `name` such as a number. `Json` holds `name` only as a string, so in the model that throw cannot happen and `None` stands for it. The branch is still modelled, and `Generator.VendorFallbackAgrees` relates it to the helper's own fallback.
- The Yeoman prompting, the greeting banner, the template copying and the commented-out imports in `generators/app/index.js` are not part of this model.
- The regular expressions are modelled by scanners for these patterns only, not by a general regular-expression engine.
