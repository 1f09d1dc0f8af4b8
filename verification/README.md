# all-repos: GitLab push adapters and the clone sync, in Dafny

This project models three pieces of `all-repos`:

- **The two GitLab push adapters.** `all_repos/push/gitlab_merge_request.py` and `all_repos/push/gitlab_pull_request.py` publish an autofix. Each one:
  - derives a repository slug from the `origin` remote URL;
  - refuses fork mode;
  - pushes `HEAD:<branch>` to `origin`;
  - opens a merge request or pull request over the forge's REST API.

  The merge-request variant percent-encodes the slug and looks the project up first. The POST then goes to the endpoint named in the answer's `_links.merge_requests`. The pull-request variant POSTs directly to `<base_url>/<slug>/pulls`.
- **`all-repos-clone`, as its tests pin it down.** It:
  - resolves `--jobs`;
  - refuses a configuration file that group or others can access;
  - removes checkouts that are no longer wanted, and prunes the parent directories this leaves empty;
  - clones or updates every wanted repository, on a pool of workers, to its source's HEAD;
  - writes the two manifests.
- **The Python string and number routines** these rely on: `str.strip`, `str.rpartition`, `str.replace`, `str.split`, `urllib.parse.quote(s, safe='')`, `int`, `str(int)` and `oct`. Each is pinned down by a contract or a lemma that ties it to a definition written independently of it:
  - `strip` by Text.StripUnique;
  - `rpartition` by Text.AfterLastCharacterization;
  - `replace` by Text.ReplaceDeletesEveryOccurrence and Text.ReplaceAtFirst;
  - `split` by Text.JoinSplit and Text.SplitJoin;
  - `quote` by the contract of Percent.QuoteByte together with Percent.QuoteIsQuoteOfEncoding, which fix the exact text, and by Percent.UnquoteQuote, which shows it decodes back;
  - `int` by Numerals.ParseIntSpec;
  - `str` by Numerals.ParseShowInt;
  - `oct` by Numerals.ParseOctOct.

A push is a pure function. It takes the settings, the branch, what git reports, and the forge's responses. It returns a `Run`: the effects performed, in order (`GitPush`, `HttpGet`, `HttpPost`), and either the reported URL or the error the push stopped with.

A sync is a function from the desired map, the remote heads and the tree found on disk to the tree left behind. The tree is a set of directory paths plus a map from repository name to checked-out revision. The worker pool is a loop that picks any waiting name while a worker is free and lets any busy worker finish next. Its contract does not depend on `jobs` or on the finishing order.

Modules, one file each:

- `Results`: Option and Result.
- `Text`: strip, rpartition, replace, split.
- `Utf8`: UTF-8 encoding and decoding.
- `Percent`: percent-encoding per RFC 3986 section 2.1. Only the unreserved set of section 2.3 stays unescaped.
- `Numerals`: decimal and octal numerals.
- `CloneOptions`: `jobs_type` and the permission guard.
- `Forest`: the output tree, and the clone, update, remove and prune steps on it.
- `Sync`: the whole run.
- `Forge`: what the two adapters share.
- `GitlabMergeRequest` and `GitlabPullRequest`: the two adapters.

`all_repos/clone.py` is not part of this model. The sync's behaviour comes from `tests/clone_test.py` and from the intended behaviour of the sync, which:
- compares the wanted names with the checkouts on disk;
- clones the new names, creating parent directories as needed;
- fetches and resets the names already checked out, on a bounded pool of workers;
- deletes the checkouts no longer wanted;
- deletes each parent directory this leaves empty, walking up to the output root.

## Model

| member | source | states |
|---|---|---|
| CloneOptions.JobsType | tests/clone_test.py:12-22 | `jobs_type` succeeds exactly when `int(s)` parses, and otherwise fails with the text given; with at least one CPU the worker count is at least 1 |
| CloneOptions.JobsTypeOfNumeral | tests/clone_test.py:12-22 | for every integer n, `jobs_type(str(n))` is n when n is positive and the CPU count otherwise |
| CloneOptions.JobsTypeZero | tests/clone_test.py:15 | `'0'` means the CPU count |
| CloneOptions.JobsTypeMinusOne | tests/clone_test.py:16 | `'-1'` means the CPU count |
| CloneOptions.JobsTypeOne | tests/clone_test.py:17 | `'1'` means one worker |
| CloneOptions.JobsTypeTwo | tests/clone_test.py:18 | `'2'` means two workers |
| CloneOptions.CheckPermissions | tests/clone_test.py:133-141 | the guard passes exactly when the group and other permission digits are both zero; a refusal carries the message naming the file, `0o600` and the actual permission bits |
| CloneOptions.OwnerOnlyPasses | tests/clone_test.py:60 | a file with mode `0o600` passes, whatever its file-type bits |
| CloneOptions.WorldWritableFails | tests/clone_test.py:133-141 | mode `0o777` is refused with exactly `<path> has too-permissive permissions, Expected 0o600, got 0o777` |
| CloneOptions.MessageNamesActualMode | tests/clone_test.py:138-140 | the refusal message ends with an octal rendering that reads back as the file's permission bits |
| Numerals.ParseIntSpec | tests/clone_test.py:12-22 | `int(s)` succeeds exactly when the text holds no information separator (U+001C to U+001F) and the stripped text is an optional sign and at least one ASCII digit; the digits give the magnitude, and the value is negative only after `-`, never positive after it |
| Numerals.ParsePadded | tests/clone_test.py:12-22 | surrounding white space is ignored: `' 2\n'` reads as 2 |
| Numerals.ParsePlus | tests/clone_test.py:12-22 | a `+` sign is accepted: `'+3'` reads as 3 |
| Numerals.ParseLeadingZeros | tests/clone_test.py:12-22 | leading zeros are accepted: `'007'` reads as 7 |
| Numerals.ParseSeparatorPadded | tests/clone_test.py:12-22 | a leading U+001C, which `strip` removes, is not skipped by `int`: `'\x1c1'` is refused |
| Numerals.ParseSignAlone | tests/clone_test.py:12-22 | a sign with no digits is refused |
| Numerals.ParseInnerSpace | tests/clone_test.py:12-22 | white space between digits is refused: `'1 2'` |
| Numerals.ParseBlank | tests/clone_test.py:12-22 | blank text is refused |
| Numerals.ParseShowInt | tests/clone_test.py:12-22 | `int(str(n)) == n` for every integer |
| Numerals.FromToDigits | tests/clone_test.py:138-140 | reading back a numeral written in any base from 2 to 10 gives the number |
| Numerals.ParseOctOct | tests/clone_test.py:138-140 | `oct(n)` loses nothing: its digits after `0o` read back as n |
| Sync.CloneAll | tests/clone_test.py:76-93 | the permission guard runs first, and a refusal stops the run with its message and no tree; otherwise the run ends in the converged tree with both manifests and the failed names, for every `jobs` |
| Sync.FetchAll | tests/clone_test.py:76-78 | a pool of at most `jobs` concurrent fetches, finishing in any order, ends in the same tree and failure set |
| Sync.RemoveUnwanted | tests/clone_test.py:109-116 | removing the unwanted checkouts one by one, in any order, leaves the well-formed tree of the wanted checkouts already present |
| Sync.Converged | tests/clone_test.py:76-130 | after a run: every wanted name whose source answered is at that head; a wanted name whose source failed keeps its old checkout or is absent; nothing unwanted remains; the directories are exactly the checkouts and their parents |
| Sync.MakePlan | tests/clone_test.py:96-116 | clone, update and remove sets are disjoint; the first two cover the wanted names, the last two the present checkouts |
| Sync.PlanUnique | tests/clone_test.py:96-116 | any plan with those three properties is `MakePlan`'s |
| Sync.FetchFollowsPlan | tests/clone_test.py:96-106 | when a name's job runs, it is checked out exactly when the plan updates it and absent exactly when the plan clones it |
| Sync.Filter | tests/clone_test.py:81-88 | the filtered manifest holds exactly the listed names the patterns keep, with their URLs |
| Sync.FilterKeepAll | tests/clone_test.py:81-88 | with no filtering, `repos_filtered.json` equals `repos.json` |
| Sync.FirstRunClonesAll | tests/clone_test.py:77-93 | a first run into an empty directory checks out every wanted repository at its source's head, with its directory and parents |
| Sync.ResyncFollowsNewHeads | tests/clone_test.py:96-106 | after upstream commits, the next run moves every checkout to the new head |
| Sync.SyncIdempotent | tests/clone_test.py:96-106 | re-running with unchanged sources and heads changes nothing |
| Sync.DroppedRepositoryRemoved | tests/clone_test.py:109-116 | a name the source no longer lists is neither checked out nor present as a directory after the next run |
| Sync.NoEmptyDirectoryLeft | tests/clone_test.py:119-130 | every directory left after a run lies on the path to some checkout |
| Sync.SingleRepositoryRun | tests/clone_test.py:120-123 | a run wanting one repository leaves exactly that checkout and its directory chain, whatever checkouts were there |
| Sync.NestedReplacedByTop | tests/clone_test.py:119-130 | for any nested name `a/b` replaced by any top-level name `c`, the second run leaves only `c`, deleting `a/b` and the emptied `a` |
| Sync.NestedParentPruned | tests/clone_test.py:119-130 | `dir1/repo2` then `repo1`: the second run deletes both `dir1/repo2` and the emptied `dir1`, leaving only `repo1` |
| Sync.RemovalMustPrecedeClone | tests/clone_test.py:119-130 | cloning `a/b` before removing `a` would delete the fresh clone; the modelled order keeps it |
| Forest.RemoveSpec | tests/clone_test.py:109-130 | removing a checkout from a well-formed tree deletes it and every parent no other checkout needs, and keeps the tree well-formed |
| Forest.PruneSpec | tests/clone_test.py:119-130 | pruning upward deletes exactly the part of the parent chain that leads to no checkout, and stops at the first directory still needed |
| Forest.CloneSpec | tests/clone_test.py:76-93 | cloning adds the checkout's directory and its parents, and keeps the tree well-formed |
| Forest.PathOfInjective | tests/clone_test.py:119-123 | different repository names give different lists of path components |
| GitlabMergeRequest.RepoSlug | all_repos/push/gitlab_merge_request.py:36-38 | the slug has no `:` and is no longer than the text after the last `:` |
| GitlabMergeRequest.SlugDeletesEveryGit | all_repos/push/gitlab_merge_request.py:38 | the slug keeps exactly the characters outside occurrences of `.git`: every occurrence is deleted, not only a trailing one |
| GitlabMergeRequest.SlugOfRemote | all_repos/push/gitlab_merge_request.py:36-38 | for `host:path.git` and for `host:path`, the slug is `path` |
| GitlabMergeRequest.InnerGitDeleted | all_repos/push/gitlab_merge_request.py:38 | an inner `.git` is deleted too: `a.gitb.git` gives `ab` |
| GitlabMergeRequest.InnerGitExample | all_repos/push/gitlab_merge_request.py:36-38 | `git@gitlab.com:team/my.github.io.git` gives the slug `team/myhub.io` |
| GitlabMergeRequest.ProjectUrl | all_repos/push/gitlab_merge_request.py:22-25 | the lookup URL is `<base_url>/projects/` and one segment with no `/`, only unreserved characters and `%`, that percent-decodes to the slug |
| GitlabMergeRequest.NestedProjectUrl | all_repos/push/gitlab_merge_request.py:22-25 | for a nested-group remote, each `/` of the path becomes `%2F` and nothing else changes |
| GitlabMergeRequest.MergeRequestsUrl | all_repos/push/gitlab_merge_request.py:24-28 | the lookup yields a URL exactly when the answer has a string at `_links.merge_requests`; otherwise the error is the refused lookup's HTTP error, a `TypeError` for a non-object, a `KeyError` for a missing key, or `BadUrl` for a link that is not a string |
| GitlabMergeRequest.Requests | all_repos/push/gitlab_merge_request.py:58-63 | after the push: the GET, then the POST to the looked-up link only if there is one, else the lookup's error; the result is `web_url` exactly when the create answer has it; a refused POST is its HTTP error, and an answer without `web_url` the error of reading it |
| GitlabMergeRequest.Push | all_repos/push/gitlab_merge_request.py:30-64 | fork mode fails with an empty trace; the trace is push, GET, POST, cut short after a failure, and the GET is sent whenever the push succeeds; the POST has the stripped title and description, both branches and both headers; the result is `web_url`; a failed lookup gives its error, a refused POST its HTTP error, and an answer without `web_url` the error of reading it |
| GitlabMergeRequest.PostFollowsLookup | all_repos/push/gitlab_merge_request.py:58-59 | the POST goes to whatever endpoint the lookup names |
| GitlabMergeRequest.DefaultsDoNotFork | all_repos/push/gitlab_merge_request.py:11-14 | default settings use `https://gitlab.example.com/api/v4` and do not fork |
| GitlabPullRequest.RepoSlug | all_repos/push/gitlab_pull_request.py:21-22 | the slug is the longest suffix of the remote URL without `:`, with nothing removed |
| GitlabPullRequest.SlugOfRemote | all_repos/push/gitlab_pull_request.py:21-22 | for `host:path` the slug is `path`, a trailing `.git` included |
| GitlabPullRequest.PullsUrl | all_repos/push/gitlab_pull_request.py:42-43 | after `<base_url>/`, the URL's path segments are the slug's segments followed by `pulls` |
| GitlabPullRequest.PullsUrlOfRemote | all_repos/push/gitlab_pull_request.py:42-43 | `host:group/project` POSTs to `<base_url>/group/project/pulls` |
| GitlabPullRequest.Create | all_repos/push/gitlab_pull_request.py:42-48 | after the push comes exactly one POST; the result is `html_url` exactly when the answer has it; a refusal is the HTTP error, and an answer without `html_url` is `resp.json['html_url']`'s error |
| GitlabPullRequest.Push | all_repos/push/gitlab_pull_request.py:18-48 | fork mode fails with an empty trace; the trace is push then POST; the POST carries the stripped title and body, base and head; the result is `html_url`, a refused POST its HTTP error, and an answer without `html_url` the error of reading it |
| GitlabPullRequest.NoLookup | all_repos/push/gitlab_pull_request.py:42-45 | no run of this adapter contains a GET |
| GitlabPullRequest.DefaultsDoNotFork | all_repos/push/gitlab_pull_request.py:10-13 | default settings use `https://gitlab.example.com/api/v4` and do not fork |
| Forge.Field | all_repos/push/gitlab_merge_request.py:63 | reading a key succeeds exactly on an object holding it; a missing key is a `KeyError`, a non-object a `TypeError` |
| Forge.Body | all_repos/push/gitlab_merge_request.py:58-61 | a refused request raises its status and body; an answered one yields its JSON |
| Percent.Quote | all_repos/push/gitlab_merge_request.py:22 | every character of `quote(s, safe='')` is unreserved or `%`, so no `/` is left |
| Percent.UnquoteQuote | all_repos/push/gitlab_merge_request.py:22 | percent-decoding the quoted text gives back the UTF-8 encoding, and then the string itself |
| Percent.QuoteIsQuoteOfEncoding | all_repos/push/gitlab_merge_request.py:22 | quoting character by character is quoting the string's UTF-8 bytes |
| Percent.QuoteUnreserved | all_repos/push/gitlab_merge_request.py:22 | an all-unreserved string is left unchanged |
| Percent.QuotePath | all_repos/push/gitlab_merge_request.py:22 | for unreserved names separated by `/`, quoting is replacing every `/` with `%2F` |
| Percent.QuoteNestedGroup | all_repos/push/gitlab_merge_request.py:22 | `group/sub/project` is sent as `group%2Fsub%2Fproject` |
| Utf8.DecodeEncode | all_repos/push/gitlab_merge_request.py:22 | strict UTF-8 decoding undoes encoding |
| Text.Strip | all_repos/push/gitlab_merge_request.py:52-53 | the result is the text with leading and trailing white space cut away, neither starting nor ending with white space |
| Text.StripUnique | all_repos/push/gitlab_merge_request.py:52-53 | any such cut is `strip()`'s result |
| Text.StripIdempotent | all_repos/push/gitlab_pull_request.py:36-37 | stripping twice is stripping once |
| Text.AfterLast | all_repos/push/gitlab_merge_request.py:37 | `rpartition(':')[2]` is a suffix without `:`, preceded by `:` when shorter than the input |
| Text.AfterLastCharacterization | all_repos/push/gitlab_pull_request.py:22 | without a `:` the whole URL is kept; otherwise exactly what follows the last `:` |
| Text.ReplaceDeletesEveryOccurrence | all_repos/push/gitlab_merge_request.py:38 | `replace(pat, '')` for a pattern with no border keeps exactly the characters outside its occurrences |
| Text.ReplaceAtFirst | all_repos/push/gitlab_merge_request.py:38 | replacing proceeds left to right: text before the first occurrence is kept, the occurrence is replaced, and replacing goes on after it |
| Text.ReplaceWithoutOccurrence | all_repos/push/gitlab_merge_request.py:38 | a text without the pattern is unchanged |
| Text.JoinSplit | all_repos/push/gitlab_pull_request.py:43 | joining the `/`-separated parts gives the text back |
| Text.SplitJoin | all_repos/push/gitlab_pull_request.py:43 | splitting a join of separator-free parts gives the parts back |

## Left out

- `all_repos/source/gitlab_org.py` (repository listing) is not modelled. Its logic is a format string around pagination and filtering that live in files outside this model.
- `all_repos/clone.py` and `all_repos/config.py` are not part of this model. The sync follows what `tests/clone_test.py` observes. The repository source, the include/exclude patterns, the remote heads, the CPU count and the configuration file's `st_mode` are parameters.
- Sync.CloneAll: removal runs before clone/update. A design that removes only after the clone and update workers have joined would lose checkouts. With that order, a wanted `a/b` that replaces an unwanted checkout `a` is deleted along with `a` (Sync.RemovalMustPrecedeClone). The run would then not reach the converged tree that the tests expect.
- Sync.CloneAll: requires that no wanted name lies inside another wanted name's directory (`NonNesting`). A checkout nested inside another's working tree is not represented.
- Sync.Converged: the same `NonNesting` requirement applies.
- Sync.Converged: a failed clone of a new name leaves no directory behind. A clone that creates the parent directories first leaves them on disk, empty, when the clone then fails: a failed `x/y` leaves `x`. The model keeps the tree equal to the directories of its checkouts and their parents, so it does not represent those leftovers, and Sync.NoEmptyDirectoryLeft is stated for that tree.
- Sync.CloneAll: its result is Sync.Converged's tree, so the same difference applies. A run with a failed clone of a nested new name ends without that name's parent directories.
- Sync.CloneAll: the starting tree must hold only checkouts and their parents (`WellFormed(before)`). A stray directory on disk that leads to no checkout, such as one left by an earlier failed clone, is kept by a real run but is not represented.
- Sync.Converged: requires the same well-formed starting tree, and so do the lemmas about a run's result (Sync.SingleRepositoryRun, Sync.NoEmptyDirectoryLeft, Sync.DroppedRepositoryRemoved, Sync.SyncIdempotent, Sync.ResyncFollowsNewHeads).
- Sync.NoEmptyDirectoryLeft: holds for runs that start from a well-formed tree and whose clones succeed; stray directories from before the run, or left by a failed clone, are outside it.
- Forest.PathOfInjective: repository names are taken to be normalised relative paths, with no empty, `.` or `..` component. On disk `a/b`, `a//b` and `a/b/` are one directory, but they give different component lists.
- Sync.FetchAll: concurrency is modelled as a nondeterministic interleaving of the bounded pool. Process handling is not modelled.
- Manifest files are maps. JSON serialisation, atomic writes and the output directory's own location are not modelled.
- The `print` output of both adapters and of the sync is not modelled.
- Real subprocess and HTTP calls are not modelled:
  - `git push` is one effect, and its success is an input.
  - `git remote` and `git log` are read-only queries. Their results are inputs: the remote URL, and the already decoded subject and body. Their failures are not modelled.
  - The target branch is an input.
- The JSON request body is the map of its keys to string values. Its byte serialisation is not modelled.
- `gitlab_api.req` is not part of this model. Forge.Body stands for it: a refused request raises an HTTP error with its status and body.
- GitlabMergeRequest.MergeRequestsUrl: a `_links.merge_requests` value that is not a string is reported as `BadUrl`, because no request can be built for it. Which exception `gitlab_api.req` raises in that case is not modelled.
- Numerals.ParseIntSpec: the same limits as for CloneOptions.JobsType below.
- CloneOptions.JobsType: `int()` is modelled for optional surrounding white space, an optional sign and ASCII decimal digits. Its white space is that of `str.isspace` without U+001C to U+001F, which `int` refuses. Underscore separators and non-ASCII digits are not accepted.
- Text.Strip: white space is Python's `str.isspace()` for the listed code points. Unicode tables beyond those are not modelled.
- Percent.Quote: the unreserved set is ASCII letters, digits and `-._~`. This is the set Python 3.7 and later use.
- Both adapters set `remote` to `origin` and `head` to `branch_name` in the non-fork branch, the only one that goes on. The model uses those values directly.
