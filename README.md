# load-jira-issues, modelled in Dafny

`load-jira-issues` is a GitHub Action. It reads a description of a
changeset: the last N releases, a time window, the last N commits, the
commits since a sha, an explicit list of shas, a sha range, or a tag range.
It runs `git log` for that changeset and parses the NUL-delimited output into
commits. It then scans each commit subject for Jira issue keys (`PROJ-123`)
whose prefix is one of the Jira project keys. The result is a report: each
issue key with its browse link and the shas of the commits that mention it,
sorted by key, plus two comma-joined strings (keys and links).

This project models that core and proves properties of it.

- `wrappers.dfy` (`Wrappers`): `Option` and `Result`.
- `strings.dfy` (`Strings`): the JavaScript string operations the action
  relies on, with their laws.
  - `trim` with the ECMAScript white-space set, `split` on one character,
    `join`, `filter(Boolean)`, ASCII `toUpperCase` and `includes`.
  - The ordinal string order used for sorting.
  - Subsequences, used to state that an order is preserved.
- `numbers.dfy` (`Numbers`): `parseInt(s, 10)` (leading white space, sign,
  longest digit prefix, `NaN`) and `Number#toString` on integers and `NaN`.
- `types.dfy` (`Types`): the records of `types.ts`, plus the seven changeset
  modes. `Fires` is the test both dispatchers apply to a mode, and
  `FirstFired` states an if/else chain over an order of modes once.
- `scanner.dfy` (`Scanner`): `buildIssuePattern`, `extractIssues` and
  `scanCommits`. The regular expression `(P1|P2|…)-\d+` with flags `gi` is
  modelled directly:
  - the alternatives are tried in order at each position;
  - a prefix matches without regard to ASCII case;
  - it must be followed by `-` and a greedy run of digits;
  - matches are leftmost and do not overlap;
  - there is no word boundary.
  `scanCommits` is a method with nested loops that updates the issue map.
- `git.dfy` (`Git`): `buildGitLogArgs` (a method with the source's if/else
  chain of pushes), `parseGitLogOutput` (a method with the stride-2 loop),
  and the exit-code rule of `fetchCommits`, whose process outcome is a
  parameter.
- `jira.ts` is modelled by `jira.dfy` (`Jira`):
  - Cloud detection;
  - the client's authentication choice;
  - the project-key filter of `fetchProjectKeys`;
  - the browse link.
- `inputs.dfy` (`Inputs`): `parseChangesetInputs` and `parseInputs`, over a
  record of the raw input strings.
- `output.dfy` (`Output`): `buildChangesetMetadata`, `buildOutputArtifact`
  (without `generatedAt`), `buildIssueKeysString` and `buildIssueLinksString`.
- `pipeline.dfy` (`Pipeline`): facts that connect these parts.
  - The two mode dispatchers agree on every validated changeset.
  - The keys string of a report built from a scan splits back into the
    scanned keys.

Two behaviours of `parseGitLogOutput` are stated as lemmas, because the rest
of the action depends on them as they are.

- A commit with an empty subject shifts every later pair.
  `filter(Boolean)` drops its empty subject token, so the next sha becomes
  its message (`Git.EmptySubjectShiftsPairs`).
- `git log --format` with `%x00` terminators ends each record with a
  newline. That newline lands at the front of the next sha token and forms
  a last, message-less "commit" of its own (`Git.NewlineTerminatedRecords`).

The round trip `Git.ParseSerialized` holds for commits with non-empty,
NUL-free fields. The issue map is a Dafny `map`. The order in which a
JavaScript `Map` yields its entries never shows in the report, because the
entries are sorted by key and `Output.AscendingUnique` shows that only one
sorted arrangement exists.

## Model

| member | source | states |
|---|---|---|
| Scanner.BuildIssuePattern | src/scanner.ts:7-15 | the pattern is well formed; with no prefixes it matches nothing, for every message; otherwise it is the alternation of the prefixes in order |
| Scanner.MatchAt | src/scanner.ts:14 | a match at a position is some prefix (any case) + `-` + a maximal digit run ending at the returned index; no result means no alternative matches there |
| Scanner.KeyMatchUnique | src/scanner.ts:14 | two valid prefixes matching at the same position end at the same index and agree up to case, so the chosen alternative does not change the matched text |
| Scanner.MatchAtOrderIrrelevant | src/scanner.ts:11 | the order of the prefixes in the alternation does not change the match at any position |
| Scanner.MatchSpans | src/scanner.ts:22-24 | the scan's matches start at or after the scan position, each is the match at its start, and they are in order without overlap |
| Scanner.MatchSpansLeftmost | src/scanner.ts:24 | a position at or after the scan start that no reported match covers is a position where the pattern does not match: the scan misses no leftmost match |
| Scanner.RawMatches | src/scanner.ts:24 | the matched strings are exactly the message's text under the match spans, one per span |
| Scanner.Dedup | src/scanner.ts:30 | `[...new Set(xs)]` has no repetitions and the same members as `xs` |
| Scanner.DedupFirstSeenOrder | src/scanner.ts:30 | `[...new Set(xs)]` lists the members in order of first appearance |
| Scanner.ExtractIssues | src/scanner.ts:20-32 | the issues have no repetitions; the never-matching pattern gives none |
| Scanner.ExtractIssuesSound | src/scanner.ts:20-32 | each issue is a prefix upper-cased, `-`, digits, and occurs in the message up to case |
| Scanner.ExtractIssuesComplete | src/scanner.ts:24-30 | every match of the scan appears, upper-cased, among the issues |
| Scanner.ExtractIssuesFirstSeenOrder | src/scanner.ts:30 | issues are ordered by first appearance of their upper-cased match |
| Scanner.ExtractIssuesEmptyIff | src/scanner.ts:25-27 | no issues exactly when the pattern matches at no position of the message |
| Scanner.ExtractIssuesIdempotent | src/scanner.ts:20-32 | scanning the issues found in a message, joined by commas as the action outputs them, gives back the same issues in the same order |
| Scanner.ScanOfJoinedKeys | src/scanner.ts:24 | in keys of the prefixes written with a comma between each two, the global scan matches each key exactly where it was written, and nothing else |
| Scanner.KeyMatchesItself | src/scanner.ts:24 | at the start of a key of one of the prefixes, with no digit after it, the pattern matches exactly that key |
| Scanner.NoMatchAtComma | src/scanner.ts:24 | the pattern never matches at a comma |
| Scanner.DedupOfDistinct | src/scanner.ts:30 | deduplicating a sequence with no repetitions leaves it unchanged |
| Scanner.ExtractIssuesOrderIrrelevant | src/scanner.ts:11 | two prefix lists with the same members give the same issues for every message |
| Scanner.NoWordBoundaryExample | src/scanner.ts:14 | `NOTPROJ-12x` with prefix `PROJ` yields `PROJ-12`: no word boundary, greedy digits |
| Scanner.CaseDedupExample | src/scanner.ts:30 | `ab-7 AB-7` with prefix `Ab` yields the single issue `AB-7` |
| Scanner.ShasMentioningNonEmptyIff | src/scanner.ts:49-55 | a key has shas exactly when some commit's message yields it |
| Scanner.ShasMentioningSubsequence | src/scanner.ts:49-55 | a key's shas follow commit order, each commit at most once |
| Scanner.AppendShaSpec | src/scanner.ts:51-55 | the inner loop adds the commit's keys to the map and appends the sha to exactly those keys' lists, creating missing lists |
| Scanner.ScanCommits | src/scanner.ts:37-59 | the map's keys are the keys some commit yields; each key's list is the shas of the commits that mention it, in commit order, never empty; no prefixes give the empty map |
| Git.ModeArgs | src/git.ts:41-66 | the revision arguments for each of the seven modes: `-n` + the count; `start..end`, or `start..HEAD` when the end tag is not truthy; `start^..end` exactly when including the start is `true`, otherwise `start..end`; `sha..HEAD`; `--no-walk` + the shas; `-n 100` for releases; `--since=` and `--until=` for a time range; none exactly when no mode fires |
| Git.BuildGitLogArgs | src/git.ts:38-69 | the arguments are the two base arguments followed by those of the first mode, in git's order, whose test fires |
| Git.CountArgumentRoundTrip | src/git.ts:41-42 | the count after `-n` reads back as the requested count |
| Git.CountTakesPrecedence | src/git.ts:41 | a commit count, when present, wins over every other field |
| Git.NoModeMeansBaseArgs | src/git.ts:39 | the arguments are the base arguments only exactly when no mode's test fires |
| Git.LogTokens | src/git.ts:14 | tokens after splitting at NUL and dropping empties are non-empty and NUL-free |
| Git.PairUp | src/git.ts:17-30 | every commit has a non-empty sha; there are at most half the tokens, rounded up |
| Git.PairUpCount | src/git.ts:17-30 | over non-empty tokens there are exactly half the tokens rounded up; the k-th sha is token 2k and the k-th message is token 2k+1, or empty when an odd count leaves the last sha without one |
| Git.PairUpFields | src/git.ts:18-28 | each sha and each message is a token, or the message is empty |
| Git.ParseLog | src/git.ts:9-33 | every parsed sha is non-empty and NUL-free |
| Git.ParseGitLogOutput | src/git.ts:9-33 | the stride-2 loop computes `ParseLog` of the output |
| Git.BlankOutputHasNoCommits | src/git.ts:10-12 | white-space-only output gives no commits |
| Git.ParseSerialized | src/git.ts:14-30 | output written as sha NUL subject NUL per commit, with non-empty NUL-free fields, parses back to the commits |
| Git.ParseSerializedWithoutFinalNul | src/git.ts:23-28 | the same output without its final NUL parses back to the same commits |
| Git.EmptySubjectShiftsPairs | src/git.ts:14 | for any NUL-free non-empty shas a, b and message m, the log of (a, empty subject) then (b, m) parses as (a, b) then (m, empty): the next sha becomes the message |
| Git.NewlineTerminatedRecords | src/git.ts:14-30 | newline-separated records leave the newline at the front of the next sha and add a message-less entry |
| Git.FetchCommits | src/git.ts:74-87 | a non-zero exit code fails with `Git command failed: ` + stderr; otherwise the commits are the parsed stdout |
| Jira.IsJiraCloud | src/jira.ts:7-9 | Cloud exactly when `.atlassian.net` occurs somewhere in the URL |
| Jira.StripTrailingSlash | src/jira.ts:19 | one trailing slash, and only one, is removed; other URLs are unchanged |
| Jira.StripKeepsCloud | src/jira.ts:19-21 | removing the trailing slash never changes whether the URL is a Cloud URL |
| Jira.CreateJiraClient | src/jira.ts:14-45 | fails, with the e-mail message, exactly for a Cloud URL without a non-empty e-mail; Cloud gets v3 basic auth with e-mail and token, otherwise v2 OAuth with the token; the host has no trailing slash |
| Jira.DefinedKeys | src/jira.ts:61 | the defined keys are exactly the keys of projects that have one |
| Jira.DefinedKeysAppend | src/jira.ts:61 | the keys keep the projects' order: the keys of two concatenated project lists are the keys of the first, then those of the second |
| Jira.DefinedKeysOfOne | src/jira.ts:61 | one project gives its key when it has one and nothing otherwise |
| Jira.KeepAllowed | src/jira.ts:64-67 | the kept keys are a subsequence of the keys, and each key occurs as often as in the input when its upper-cased form is allowed and not at all otherwise |
| Jira.KeepAllowedMembers | src/jira.ts:64-67 | a key is kept exactly when its upper-cased form is allowed |
| Jira.FilterProjectKeys | src/jira.ts:60-67 | a key is returned exactly when a project has it and, with a non-empty allow-list, it equals an allowed key up to case; order is kept; each key occurs as often as among the defined project keys, or not at all when the allow-list rejects it; with a non-empty allow-list the result is the defined keys filtered by the upper-cased list |
| Jira.NoAllowListKeepsAll | src/jira.ts:64 | a missing or empty allow-list keeps every defined key in order |
| Jira.KeepAllowedIdempotent | src/jira.ts:66 | filtering twice with the same allow-list is filtering once |
| Jira.AllowListIgnoresCase | src/jira.ts:65-66 | allowed `proj` keeps `Proj`, drops `OTHER` and skips the keyless project |
| Jira.BuildIssueBrowseUrl | src/jira.ts:79-82 | a base URL ending in `/` is followed directly by `browse/` + key; any other base URL, the empty one included, by `/browse/` + key |
| Jira.BrowseUrlEndsWithKey | src/jira.ts:79-82 | the link ends in `/browse/` + key |
| Jira.BrowseUrlIgnoresTrailingSlash | src/jira.ts:80 | a base URL with or without its trailing slash gives the same link |
| Inputs.OrUndefined | src/inputs.ts:12 | an input falls back to undefined exactly when it is the empty string |
| Strings.FilterNonEmptySelects | src/inputs.ts:17-19 | `filter(Boolean)` keeps the non-empty strings in order, each as often as it occurs, and no empty one |
| Inputs.CommaList | src/inputs.ts:17-19 | the items are the comma-separated parts of the input after trimming, with the empty ones dropped: a subsequence of the trimmed parts holding each non-empty part as often as it occurs and no empty one; each item is non-empty, trimmed and comma-free |
| Inputs.CommaListOfJoin | src/inputs.ts:18 | a comma-joined list of non-empty, comma-free, trimmed items parses back to itself |
| Inputs.BuildChangeset | src/inputs.ts:92-106 | each primary field is present exactly when its raw input is non-empty; the counts are `parseInt` of their input; the shas are the comma list of their input; including the start is undefined for an empty input and true exactly for `true`; every text field, the secondary ones included, is its input or undefined when that is empty |
| Inputs.ParseChangesetInputs | src/inputs.ts:47-107 | a returned changeset comes from inputs that set exactly one of the seven selecting inputs, and whenever exactly one is set the result is that changeset built from the raw inputs |
| Inputs.ParseChangesetNoneIff | src/inputs.ts:61-73 | no changeset exactly when all seven selecting inputs are empty |
| Inputs.ParseChangesetFailureIff | src/inputs.ts:76-90 | an error exactly when two different selecting inputs are set; the message lists the set ones in order |
| Inputs.ParseChangesetOneMode | src/inputs.ts:92-106 | a returned changeset has exactly one primary field, and a field is defined exactly when its selecting input is set |
| Inputs.ParseInputs | src/inputs.ts:9-42 | changeset errors come first, then "No changeset specified", then the Cloud e-mail rule: a Cloud URL with an empty e-mail fails with the missing-e-mail message; a success carries the inputs with `jira-issues.json` and undefined as defaults |
| Inputs.ValidInputsMakeAClient | src/inputs.ts:29-32 | validated inputs always let the Jira client be created |
| Output.BuildChangesetMetadata | src/output.ts:9-32 | the metadata describes the first mode, in the metadata order, whose test fires, with the fields that selected it; `unknown` when none fires |
| Output.ReleasesTakePrecedence | src/output.ts:10-12 | a release count, when present, wins |
| Output.UnknownIff | src/output.ts:31 | `unknown` exactly when no mode's test fires |
| Output.SortedKeys | src/output.ts:44-50 | the keys of the map, each once, in strictly ascending order |
| Output.AscendingUnique | src/output.ts:50 | two ascending lists with the same members are equal: the sort's result does not depend on the map's entry order |
| Output.BuildOutputArtifact | src/output.ts:37-63 | one issue per map key, with its browse link and its commits unchanged, ascending by key; totals count the issues and pass the commit count through |
| Output.EmptyMapEmptyReport | src/output.ts:44-58 | an empty map gives no issues and a total of 0 |
| Output.ReportIsTheSortedEntries | src/output.ts:44-50 | any ascending list of entries with the map's keys, links and commits is the report's issue list |
| Output.BuildIssueKeysString | src/output.ts:83-85 | no issues give `""`; one issue gives its key |
| Output.BuildIssueLinksString | src/output.ts:76-78 | no issues give `""`; one issue gives its link |
| Output.KeysStringSplits | src/output.ts:83-85 | splitting the keys string at commas gives the keys in report order |
| Output.LinksStringSplits | src/output.ts:76-78 | splitting the links string at commas gives the links in report order |
| Output.LinksFollowKeys | src/output.ts:47 | the n-th link is the browse link of the n-th key |
| Pipeline.DispatchersAgree | src/output.ts:9-32 | with at most one primary field, the report's mode is the one `git log` gets, and `unknown` exactly when `git log` gets the base arguments only |
| Pipeline.ValidatedChangesetsAgree | src/inputs.ts:76-90 | for inputs that pass validation, both dispatchers pick the same mode |
| Pipeline.DispatchersDisagreeWithoutValidation | src/git.ts:41 | a release count next to a commit count is reported as `releases` while `git log` is limited by the count |
| Pipeline.IssueKeysHaveNoComma | src/scanner.ts:14 | no key a scan reports holds a comma |
| Pipeline.ScannedKeysReadBack | src/output.ts:83-85 | the keys string of a report built from a scan splits back into the scanned keys, ascending |
| Strings.UpperStrIdempotent | src/scanner.ts:30 | upper-casing an upper-cased string changes nothing |
| Strings.TrimSpec | src/inputs.ts:18 | `trim` removes exactly the leading and trailing white space |
| Strings.SplitJoin | src/inputs.ts:18 | splitting a join of separator-free parts gives the parts back |
| Strings.JoinSplit | src/git.ts:14 | joining the parts of a split gives the string back |
| Numbers.ParseIntOfNumberToString | src/git.ts:42 | `parseInt` reads back what `toString` writes, `NaN` included |
| Numbers.ParseIntOfDigits | src/inputs.ts:93 | `parseInt` of a digit string is its decimal value |
| Types.FirstFiredOrderIrrelevant | src/output.ts:9-32 | with at most one primary field, any two orders of the same modes pick the same mode |

## Left out

- Running `git`, and writing the report file: process and file I/O. The
  outcome of the `git` process is a parameter of `Git.FetchCommits`.
- The `jira.js` client objects and the `searchProjects` request, with its
  `JIRA API error: ` wrapping: a foreign library and the network. The search
  response is a parameter of `Jira.FilterProjectKeys`.
- `src/index.ts` (orchestration, logging, action outputs, GitHub context):
  it is not part of this model.
- `core.getInput`, its `required` check and its trimming: the inputs are a
  record of the strings it returns.
- `generatedAt` (the wall clock) is not part of `OutputMetadata`.
- Scanner.ValidPrefix: prefixes are ASCII letters and digits. Regular
  expression metacharacters in a project key are not modelled, and neither
  is a general regular-expression engine.
- Strings.UpperStr: `toUpperCase` and the `i` flag are modelled for ASCII
  only. Unicode case mapping is not modelled.
- Strings.Less: `localeCompare` is modelled as ordinal comparison. It agrees
  with the locale order on keys of upper-case ASCII letters, digits and `-`.
  Keys with other characters, such as `_`, could sort differently.
- Numbers.NumberToString: integers are unbounded. Floating-point rounding,
  and the exponent notation JavaScript uses for very large numbers, are not
  modelled.
- Output.BuildOutputArtifact: `totalCommits` is a natural number passed
  through. The caller's use of it (the commit count) is in `src/index.ts`.
- Scanner.ScanCommits: the JavaScript `Map` keeps insertion order; the
  model's `map` does not. The report sorts the keys, so the order is never
  observed.
