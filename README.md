# tag-creator, modelled in Dafny

tag-creator is a GitHub Action that tags a release after a pull request is merged.
It reads the first page of releases that the API returns (the request does not paginate) and takes the greatest version among their tags.
It bumps that version according to the merged branch's prefix (`feature/…`, `chore/…`,
`test/…`, `docs/…`, `hotfix/…`). It writes the new version into every configured version
file through the repository contents API. Finally it creates a pre-release tagged with the new version.

The model covers the version arithmetic and string handling in `src/utils.ts` and the
tables in `src/types.ts`. It also covers the release selection and the per-file update
protocol of `src/ActionManager.ts`:

- `wrappers.dfy`: `Option`, which stands for a JavaScript value that may be `null`.
- `strings.dfy`: the JavaScript string built-ins the code relies on:
  - `split` on one character, and joining;
  - `parseInt` as "the leading decimal digits, or NaN when there are none";
  - template rendering of a number;
  - ASCII `trim`;
  - global removal of `'` and `"`;
  - `replace` of the first occurrence.
- `paths.dfy`: POSIX `path.normalize`, restricted to what the version-file list needs.
- `types.dfy`: the branch-category tables and the version record.
- `utils.dfy`: the static members of `Utils`.
- `action_manager.dfy`: one run of the action, as the class `ActionManager`.
  - Its `store` field is the repository's files: a map from path to content.
  - Its `requests` field is the log of every request sent to GitHub, in order.
  - What GitHub answers is given to the run as input:
    - the release list, or `None` when listing fails;
    - for each version file, a `FileOutcome`: the previous sha or `None`, the new blob's sha or `None`, and whether the put succeeded.
  - `UpdateVersion` is `updateVersion`, with its three steps: read the previous sha, create the blob, put the content.
  - `_run` is split into three methods that call each other: `Run`, `Proceed` and `Release`.
  - Each method is proved against the functions `RunResult`, `RunRequests`, `RunStore` and the helpers under them.
  - Lemmas about those functions state what a run does.

Some behaviour of the code is easy to miss:

- A single release whose tag does not parse stops the run (`src/ActionManager.ts:110-113`).
  The run does not fall back to 0.0.0 in that case.
- A merged branch without a recognised prefix is bumped as `chore`, i.e. as a patch
  (`src/ActionManager.ts:63-66`). The run carries on.
- `_run` calls `getNewVersion` without `use_semver` (`src/ActionManager.ts:115`), so the
  action always takes the classic path. Two consequences:
  - a bumped version always has a hotfix number;
  - the `new_version == null` check on lines 117-120 cannot fire, since the branch type is always recognised.
- `getNewVersion`'s final `return null` (`src/utils.ts:155-157`) is reached exactly when the branch type is not one of the five prefixes.
- With `skip_ci` set, `_run` appends the skip marker to the update message (`update_msg`). `updateVersion` appends it once more, so every file commit carries the marker twice (`SkipMarkerTwice`).
- The file body renders an absent hotfix number as `null`. Only the semver path produces an absent one, and the action never takes that path.

## Model

| member | source | states |
|---|---|---|
| Types.BranchTypesAre | src/types.ts:1-9 | the recognised branch prefixes are exactly feature, chore, test, docs and hotfix |
| Types.BranchTypesPartitioned | src/types.ts:1-9 | every branch type is in exactly one of the minor, patch and hotfix tables |
| Utils.MatchesAtMarker | src/utils.ts:17-21 | the greedy digit match at one position succeeds exactly when the prefix, some run of digits and ` from ` stand there |
| Utils.MatchesFromMarker | src/utils.ts:17-21 | scanning from a position finds the merge pattern exactly when it occurs at or after that position |
| Utils.IsMergeCommit | src/utils.ts:17-21 | `isMergeCommit` is true exactly when the message contains `Merge pull request #`, a possibly empty digit run and ` from ` |
| Utils.IsBranchType | src/utils.ts:190-192 | a type is a branch type exactly when it is one of the five prefixes |
| Utils.IsMinorType | src/utils.ts:33-35 | true exactly for `feature` |
| Utils.IsPatchType | src/utils.ts:37-39 | true exactly for `chore`, `test` and `docs` |
| Utils.IsHotfixType | src/utils.ts:41-43 | true exactly for `hotfix` |
| Utils.GetBranchType | src/utils.ts:23-31 | the result is None without a `/`; otherwise it is the first segment exactly when that segment is a branch type, and None for any other segment |
| Utils.LessIrreflexive | src/utils.ts:45-85 | no version is below itself in the comparison order |
| Utils.LessTransitive | src/utils.ts:45-85 | the comparison order is transitive |
| Utils.LessTotal | src/utils.ts:45-85 | any two versions are equal or ordered one way or the other |
| Utils.CompareVersions | src/utils.ts:45-85 | 0 exactly for equal versions; 1 exactly when the second is greater and -1 exactly when the first is, greater taken lexicographically over major, minor, patch and hotfix, with an absent hotfix below any present one |
| Utils.CompareAntisymmetric | src/utils.ts:45-85 | swapping the arguments negates the result |
| Utils.GetVersion | src/utils.ts:87-123 | a tag parses exactly when it has 3 or 4 dot-segments that each start with a digit; the numbers are the segments' parses, and the hotfix is None for 3 segments and the 4th segment's parse for 4 |
| Utils.VersionTypeToString | src/utils.ts:160-164 | splitting the rendered text at `.` gives back its 3 or 4 number pieces |
| Utils.VersionTypeToStringText | src/utils.ts:160-164 | the rendered text is `major.minor.patch`, followed by `.hotfix` only when the hotfix is present and not zero |
| Utils.RenderedParts | src/utils.ts:160-164 | a rendered version has 3 or 4 dot-free numbers |
| Utils.ParseNumber | src/utils.ts:96-98 | `parseInt` of a rendered number gives the number back |
| Utils.VersionStringRoundTrip | src/utils.ts:160-164 | parsing a rendered version gives it back, except that a zero hotfix number comes back absent |
| Utils.VersionStringRoundTripExact | src/utils.ts:160-164 | a version whose hotfix is absent or non-zero survives rendering and parsing unchanged |
| Utils.GetNewVersion | src/utils.ts:125-158 | a bump exists exactly for a branch type; it keeps major, is greater than the current version, and leaves the hotfix absent exactly under semver |
| Utils.GetNewVersionRules | src/utils.ts:125-158 | the result of each rule: minor resets patch, patch keeps minor, both reset the hotfix to None or 0; a hotfix branch bumps patch under semver and the hotfix number (absent to 1, h to h+1) otherwise |
| Utils.BumpIsGreater | src/utils.ts:125-158 | `compareVersions(v, getNewVersion(v, t, p))` is 1 for every branch type and policy |
| Utils.PublishedTagIsGreater | src/utils.ts:125-164 | the tag of a bumped version parses to a version greater than the one bumped |
| Utils.CleanEntry | src/utils.ts:170-176 | a cleaned entry (trimmed, unquoted, one leading `/` dropped through `StartsWith`) holds no quote character |
| Utils.BracketedShape | src/utils.ts:169 | `IsBracketed`, the test `startsWith("[") && endsWith("]")`, holds exactly when the string has at least two characters, `[` first and `]` last |
| Utils.BracketedLength | src/utils.ts:169-170 | a string that `IsBracketed` accepts (starts with `[`, ends with `]`) has at least two characters, so stripping both is defined |
| Utils.CleanEntries | src/utils.ts:170-176 | the first `map`: one cleaned entry per piece, in order |
| Utils.NormalizeAll | src/utils.ts:178-180 | the second `map`: one normalised path per entry, in order |
| Utils.VersionFilesToStringArray | src/utils.ts:166-188 | the output is the list the specification function `VersionFileList` gives |
| Utils.VersionFileListSingle | src/utils.ts:183-185 | input without brackets comes back unchanged as the only file |
| Utils.VersionFileListBracketed | src/utils.ts:169-182 | a bracketed list gives one path per comma-separated entry; each is its trimmed, unquoted entry, with at most one leading `/` dropped, normalised; and each is already normal |
| Paths.Normalize | src/utils.ts:178-180 | `path.normalize` never returns an empty string, and turns an empty path into `.` |
| Paths.NormalizeIdempotent | src/utils.ts:178-180 | normalising a path twice is normalising it once |
| Paths.NormalizeClean | src/utils.ts:178-180 | a path of non-empty, non-`.` segments joined by single `/`s is already normal; since the model keeps `..` segments, for Node's normaliser this holds only of paths without `..` |
| Paths.NormalizeDropsDotPrefix | src/utils.ts:178-180 | a leading `./` on a relative path makes no difference |
| Paths.NormalizeKeepsAbsolute | src/utils.ts:178-180 | normalisation keeps a path absolute or relative |
| Strings.NatToString | src/utils.ts:163 | the template rendering `${n}` of a number is a non-empty run of decimal digits |
| Strings.DigitsValueOfNatToString | src/utils.ts:163 | the digits that `${n}` writes have the value `n`, so rendering is undone by reading the digits back |
| Strings.ParseInt | src/utils.ts:96-98 | `parseInt` is NaN exactly when the string is empty or does not start with a decimal digit |
| Strings.ParseIntOfNatToString | src/utils.ts:96-98 | `parseInt` of a rendered number followed by a non-digit gives the number |
| Strings.Split | src/utils.ts:88 | `split` gives at least one piece, and the first is everything before the first separator |
| Strings.SplitJoin | src/utils.ts:88 | splitting a join of separator-free pieces gives the pieces back |
| Strings.JoinSplit | src/utils.ts:88 | joining the pieces of a split gives the string back |
| Strings.SplitLength | src/utils.ts:170 | a split has one piece more than there are separators |
| Strings.StartsWithMeans | src/utils.ts:169-174 | `s.startsWith(p)` holds exactly when `s` is `p` followed by some string |
| Strings.EndsWithMeans | src/utils.ts:169 | `s.endsWith(p)` holds exactly when `s` is some string followed by `p` |
| Strings.Trim | src/utils.ts:171 | a trimmed string is empty or neither starts nor ends with whitespace |
| Strings.TrimIsInfix | src/utils.ts:171 | `trim` removes exactly the leading and the trailing run of spaces |
| Strings.TrimOfTrimmed | src/utils.ts:171 | a string without surrounding spaces is its own trim |
| Strings.RemoveQuotes | src/utils.ts:172-173 | the result is no longer than the input and holds no `'` or `"` |
| Strings.RemoveQuotesConcat | src/utils.ts:172-173 | removing quotes from two joined strings is removing them from each |
| Strings.RemoveQuotesQuote | src/utils.ts:172-173 | a single `'` or `"` is removed altogether |
| Strings.RemoveQuotesUnquoted | src/utils.ts:172-173 | removing quotes from a quote-free string changes nothing |
| Strings.ReplaceFirstCorrect | src/ActionManager.ts:159-163 | `replace` with a string pattern leaves a string without the pattern unchanged, and otherwise replaces only the first occurrence, keeping what is before and after it |
| Strings.ReplaceFirstAt | src/ActionManager.ts:159-163 | at the first occurrence `i` of the pattern, the result is the text before `i`, the replacement, and the text after the occurrence |
| Strings.ReplaceFirstAbsent | src/ActionManager.ts:159-163 | without an occurrence of the pattern, `replace` returns the string unchanged |
| Strings.ReplaceFirstSkip | src/ActionManager.ts:159-163 | `replace` passes over a prefix that cannot start the pattern |
| Strings.ReplaceFirstHead | src/ActionManager.ts:159-163 | `replace` of a string starting with the pattern replaces that occurrence |
| ActionManager.VersionFileContent | src/ActionManager.ts:159-163 | filling `VERSION_TEMPLATE` (lines 21-24) gives exactly `MAJOR=a\nMINOR=b\nPATCH=c\nHOTFIX=d`, each placeholder replaced once by its field's value, with `null` for an absent hotfix |
| ActionManager.MergedBranchType | src/ActionManager.ts:61-66 | the branch type used is always a recognised one: the merged branch's when it has one, `chore` otherwise |
| ActionManager.SelectCurrent | src/ActionManager.ts:68-113 | the run stops exactly when there is at least one release and the first tag does not parse, with the single-release message exactly when there is one release; otherwise the current version is at least the first tag's parse |
| ActionManager.MaxOf | src/ActionManager.ts:81-98 | the running maximum is never below its seed, and is at least the last tag's parse when that tag parses |
| ActionManager.SelectMaxRelease | src/ActionManager.ts:81-98 | the loop over the releases computes the running maximum `MaxOf` |
| ActionManager.MaxOfIsUpperBound | src/ActionManager.ts:88-96 | the maximum is at least the seed and at least every parsable tag; unparsable tags are skipped |
| ActionManager.MaxOfIsAttained | src/ActionManager.ts:88-96 | the maximum is the seed or the parse of one of the tags |
| ActionManager.InitialTag | src/ActionManager.ts:76 | `0.0.0` parses to 0.0.0 without a hotfix number |
| ActionManager.ReadCurrentVersion | src/ActionManager.ts:68-113 | the release-list part of `_run` yields the current version or the stop that `SelectCurrent` prescribes |
| ActionManager.NoReleaseStartsAtZero | src/ActionManager.ts:75-76 | with no release, or when listing fails, the current version is 0.0.0 without a hotfix number |
| ActionManager.SingleRelease | src/ActionManager.ts:77-78 | one release: its parse is the current version, and an unparsable tag stops the run |
| ActionManager.SeveralReleases | src/ActionManager.ts:79-99 | several releases: an unparsable first tag stops the run; otherwise the current version is the parse of one of the tags and no parsable tag compares greater |
| ActionManager.SkipMarkerTwice | src/ActionManager.ts:126-130 | through `UpdateMessage` (`update_msg`) and `CommitMessage` (lines 165-167): with `skip_ci` set, a file commit message is `release: bump version <str>` followed by the skip marker twice |
| ActionManager.NoSkipMarker | src/ActionManager.ts:126-130 | through `UpdateMessage` and `CommitMessage`: without `skip_ci`, a file commit message is just `release: bump version <str>` |
| ActionManager.HotfixTextReadsBack | src/ActionManager.ts:163 | `HotfixText`, the rendering `${new_version.hotfix}`, is read back by `parseInt` as the hotfix: a number as itself, `null` as NaN |
| ActionManager.FirstFailure | src/ActionManager.ts:132-135 | the index of the first failed file update: every earlier update succeeds, and the one there fails |
| ActionManager.StoreAfterContents | src/ActionManager.ts:132-135 | once the first n files are written, each holds the new body and every other path is as it was |
| ActionManager.MissingShaStillPuts | src/ActionManager.ts:173-190 | a failed read of the previous sha stops nothing: once the blob exists the put is sent without a sha; any other read outcome changes only the sha the put carries |
| ActionManager.Bumped | src/ActionManager.ts:115 | the version a run bumps to keeps major, is greater than the current one and has a hotfix number |
| ActionManager.ActionManager.constructor | src/ActionManager.ts:30-34 | a fresh manager holds its input and the initial store, and has sent nothing |
| ActionManager.ActionManager.UpdateVersion | src/ActionManager.ts:151-241 | appends the read, the blob and, when the blob exists, the put with the previous sha; returns true exactly when blob and put succeed, and only then stores the new body at the path |
| ActionManager.ActionManager.UpdateVersionFiles | src/ActionManager.ts:132-135 | updates the files in list order and stops at the first failure, whose index it returns; the files before it hold the new body |
| ActionManager.ActionManager.Run | src/ActionManager.ts:40-149 | the outcome, the request log and the store of a whole run, as `RunResult`, `RunRequests` and `RunStore` define them |
| ActionManager.ActionManager.Proceed | src/ActionManager.ts:110-120 | stops when the current version could not be read, otherwise bumps it by the branch type and releases it |
| ActionManager.ActionManager.Release | src/ActionManager.ts:122-144 | writes every version file for the new version and, when all of them went through, requests the release |
| ActionManager.PutsInListOrder | src/ActionManager.ts:132-135 | while updates succeed, the files are put one after another in list order |
| ActionManager.ReadsInListOrder | src/ActionManager.ts:132-135 | the first n updates read the first n files, one each, in list order |
| ActionManager.ReadPathsOfFile | src/ActionManager.ts:151-241 | a file update reads its file exactly once, whatever GitHub answers |
| ActionManager.PutsUpToFailure | src/ActionManager.ts:132-135 | up to the first failed update, every earlier file is put, and the failed one only when its blob was created |
| ActionManager.NoReleaseInUpdates | src/ActionManager.ts:151-241 | a file update never creates a release |
| ActionManager.ReadsOnlyAttempted | src/ActionManager.ts:132-135 | the files read by the first n updates are among the first n files |
| ActionManager.FailedUpdateStopsFiles | src/ActionManager.ts:132-135 | after the first failed update no release is requested; the requests are exactly those of the updates up to the failed one, which read the files up to it once each, in order, and put the earlier ones and the failed one only when its blob was created |
| ActionManager.FailedUpdateStopsRun | src/ActionManager.ts:132-135 | after the first failed update the run ends naming that file and creates no release; it reads exactly the files up to that one, once each in list order, and puts only the earlier files and the failed one when its blob was created |
| ActionManager.SuccessfulRun | src/ActionManager.ts:139-144 | a run that writes every file puts them all in list order and ends by requesting release `str`, named `v<str>`, as a pre-release |
| ActionManager.RunTagIsGreater | src/ActionManager.ts:115-122 | the tag a run publishes parses to a version greater than the current one |
| ActionManager.StopLeavesFilesAlone | src/ActionManager.ts:110-113 | a run that cannot read its current version sends nothing after the release list and changes no file |
| ActionManager.UnknownBranchBumpsPatch | src/ActionManager.ts:61-66 | a merged branch without a recognised prefix gets a patch bump: patch+1, hotfix 0 |

## Left out

- HTTP requests: the model records only what each request asks for and takes GitHub's answers as inputs. The reply data and status codes, the `HttpError` status checks and the default-branch lookup are not modelled.
- Run: a failure of `GET /repos/{owner}/{repo}` (line 53) throws out of the real run. The model logs the request and carries on.
- Run: the status of the final release request is not modelled. Only the request is.
- Logging through `core.info` and `core.error` is not modelled; it changes nothing the run computes.
- The `token`, `owner`, `repo` and `before_upload_tag` inputs are not modelled. They only reach the HTTP client and the hook.
- `try_run_before_tag_upload_hook` (lines 137 and 243-257) is not modelled: the model treats the hook as succeeding. In the real run, `exec` from `@actions/exec` rejects when a command exits non-zero or cannot be started (an empty line of `before_upload_tag` included), so a failing hook command throws out of `_run` after every version file has been written and before the release request of lines 139-144; the exit-code branch of lines 251-253 never runs. `Release`, `Run` and `SuccessfulRun` therefore describe runs whose hook is empty or succeeds.
- `base64.encode` of the put's content is not modelled. The model records the content as plain text. It also does not capture that the blob request sends raw content marked as base64.
- async/await is not modelled. The model runs the steps in order, since nothing runs concurrently.
- ParseInt: leading whitespace, signs, the `0x` prefix and radix detection of JavaScript `parseInt` are not modelled. A segment parses as its maximal leading decimal-digit run and fails when that run is empty.
- Version numbers are unbounded naturals. The model does not capture floating-point precision loss for numbers beyond 2^53.
- Paths.Normalize: `..` segments are kept as ordinary names rather than resolved.
- Strings.Trim: only ASCII whitespace is trimmed. Unicode whitespace is not modelled.
- Strings.ReplaceFirst: `$` patterns in the replacement are not interpreted. The replacements are rendered numbers and `null`, which hold no `$`.
- `src/index.ts` (input plumbing) is not part of this model.
