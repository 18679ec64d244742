# git_repo: submodule parsing, url collapsing and the bare-repository probe

This project models the text logic of `git_repo`, a helper that keeps one
bare clone per remote url under a root directory and checks worktrees out
of it, recursing into submodules. The model covers:

- `parse_submodules` of git_repo.py (module `Submodules`). It reads a
  `.gitmodules` file line by line into a list of `{"path", "url"}`
  records. Two accumulators are never reset. A header emits the pending
  record when a path has been seen. A final record is always appended, and
  every exception is swallowed.
- `parse_submodules` of git_repo.cpp (module `CppSubmodules`). This is the
  same parser written as a `switch` state machine. Two quirks are modelled
  as written: `case 0` falls through into `case 1`, and `if (state = 1)`
  assigns. The evident intent is modelled beside them.
- `resolve_url` and the submodule-url rewrite that feeds it (module
  `Urls`), with Python's `find`, `rfind` and negative slice bounds
  modelled exactly. Since the loop does not terminate on every input, the
  model characterises exactly the inputs on which it does.
- `get_repo` and its scan of a bare repository's `config` (module
  `Registry`). It probes the candidates `name`, `name_1`, `name_2`, … and
  stops at the first one that does not exist or whose config lists the
  url.
- The branch name given to a new worktree (module `Worktree`).
- Module `Strs` holds the Python and C++ string operations these use.
  Module `Wrappers` holds `Option`.

Each loop of the source is a method whose postcondition ties its result to
a function that processes the lines (or passes) one at a time. The
properties are lemmas about those functions.

The inputs are values:
- A file is `Option<seq<string>>`, where `None` is a file that cannot be
  opened, given as the lines it holds. The Python parsers get the lines as
  `readlines` yields them, with their newlines. The C++ parser gets them as
  `getline` yields them, without.
- The root directory is a finite `map` from directory name to the lines of
  that directory's `config`.
- `Path(url).name` is a given string.

## Model

| member | source | states |
|---|---|---|
| Submodules.ParseSubmodules | git_repo.py:14-45 | The loop over the lines returns `Parsed(file)`: an unopenable file gives `[]`, an exception returns the records appended so far, otherwise the last record is appended after the loop |
| Submodules.ValueAfterPrefix | git_repo.py:31-34 | On a `\tpath = ` or `\turl = ` line, `split(' ')[2]` cannot raise, and the value is the text after the prefix up to its first space, right-stripped |
| Submodules.ValueOfCleanLine | git_repo.py:31-34 | A value without whitespace written after its prefix is read back unchanged, whether or not the line ends in its newline |
| Submodules.ValueNewline | git_repo.py:32-34 | The newline `readlines` keeps never changes a value, because `rstrip` removes it |
| Submodules.StepNewline | git_repo.py:21-36 | The newline at the end of a line never changes what that line does: the same branch, the same value, the same exception |
| Submodules.RunTerminated | git_repo.py:18-36 | Scanning lines that keep their newlines gives the same outcome as scanning them without, from any state |
| Submodules.ParsedTerminated | git_repo.py:14-45 | The returned list is the same whether each line keeps its newline or not, so every statement about bare lines holds for what `readlines` yields |
| Submodules.HeaderStep | git_repo.py:22-30 | A quoted `[submodule "…"]` header, with or without its newline, appends the pending record exactly when a path has been seen, and changes nothing else |
| Submodules.PathStep | git_repo.py:31-32 | A clean path line, with or without its newline, sets the path accumulator and nothing else |
| Submodules.UrlStep | git_repo.py:33-34 | A clean url line, with or without its newline, sets the url accumulator and nothing else |
| Submodules.RunBlock | git_repo.py:21-34 | The lines of a block as `readlines` yields them emit the pending record (if a path was seen), then hold the block's path and its url, or the previous url when it has none |
| Submodules.FirstBlock | git_repo.py:19-34 | The first block of a file, newlines kept, emits nothing, because no path has been seen before it |
| Submodules.FinishBlocks | git_repo.py:21-42 | From a state holding a path, the lines of a list of blocks, newlines kept, append the pending record and then one record per block in order, the last one by the final append |
| Submodules.ParsedBlocks | git_repo.py:21-42 | A readable file of k >= 1 well-formed blocks, read with or without newlines, gives exactly k records in file order, each with its block's path and url; a block without a url line carries the url of the block before it |
| Submodules.UrlInherited | git_repo.py:19-34 | Because the accumulators are never reset, a second block without a url line repeats the first block's url, newlines kept or not |
| Submodules.MissingQuoteAborts | git_repo.py:22-45 | A header without `"` ends the parse: the result is the records appended before it plus the one that header emitted, with no final record |
| Submodules.ParsedWithoutPath | git_repo.py:23-42 | A readable file with no path line gives at most one record, and any record it gives has no path |
| Submodules.ParsedWithoutValues | git_repo.py:19-42 | A readable file with neither path nor url lines, whose headers are quoted, gives exactly one record with no path and no url |
| Submodules.OtherLineIgnored | git_repo.py:35-36 | A line that is not a header, path or url line can be removed without changing the result |
| Submodules.RecordsBound | git_repo.py:22-42 | The result holds at most one record per header line plus one |
| CppSubmodules.ParseSubmodules | git_repo.cpp:12-47 | The state machine as written, `state`, the fall-through and the assignment in the final test included, returns `Parsed(file)` |
| CppSubmodules.RunLength | git_repo.cpp:21-41 | Each header line pushes exactly one record, the first one included, and no other line pushes |
| CppSubmodules.RecordCount | git_repo.cpp:21-44 | The result has one record more than the file has header lines; empty or unopenable input gives the one record `("", "")` |
| CppSubmodules.OtherLineIgnored | git_repo.cpp:37-39 | A line that is not a header, path or url line can be removed without changing the result |
| CppSubmodules.RunBlockBody | git_repo.cpp:31-36 | A path line and an optional url line set the fields to the untrimmed remainders after the 8- and 7-character prefixes and push nothing |
| CppSubmodules.RunBlock | git_repo.cpp:27-36 | A block pushes the pending `(path, url)` and then holds the block's path and url, or the previous url when it has none |
| CppSubmodules.RunBlocks | git_repo.cpp:21-44 | A list of blocks pushes the pending record, then each block's record in order, the last one by the final push |
| CppSubmodules.ParsedBlocks | git_repo.cpp:17-45 | Lines before the first header push nothing but still set the fields. The result is one leading record with what they set (empty when nothing), then every block's path and url in order |
| CppSubmodules.ParsersAgree | git_repo.cpp:12-47 | On a well-formed file of k >= 1 blocks, the C++ result on the `getline` lines is `("", "")` followed, record by record, by the Python result on the `readlines` lines, with `None` read as `""` |
| CppSubmodules.OneBlockAsWritten | git_repo.cpp:22-44 | One block with any path and url, whitespace included, gives two records, `("", "")` and the untrimmed `(path, url)` |
| CppSubmodules.EmptyFileAsWritten | git_repo.cpp:42-44 | An empty file gives one record `("", "")` |
| CppSubmodules.IntendedRunIsRun | git_repo.cpp:22-40 | Once a header has been seen, the corrected machine processes lines exactly as case 1 does |
| CppSubmodules.IntendedFirstBlock | git_repo.cpp:22-36 | With a `break` after case 0, the first header only changes the state, and that block's lines set the fields |
| CppSubmodules.IntendedParsedBlocks | git_repo.cpp:22-44 | With both corrections, a file of k blocks gives exactly its k records in order |
| CppSubmodules.IntendedParsedEmpty | git_repo.cpp:42-44 | With both corrections, empty or unopenable input gives no record |
| CppSubmodules.IntendedAgreesWithPython | git_repo.cpp:12-47 | With both corrections, the C++ result on the `getline` lines agrees record for record with the Python result on the `readlines` lines of a well-formed file |
| Urls.Pass | git_repo.py:49-51 | One pass keeps the text before the `/` found and the text after the first `..`; when no `/` is found, `url[:-1]` keeps all but the last character |
| Urls.Resolve | git_repo.py:47-52 | On an input on which the loop terminates, the result contains no `..` and is no longer than the input |
| Urls.ResolveUrl | git_repo.py:47-52 | The loop returns `Resolve(url)`, which contains no `..`; a url without `..` is returned unchanged |
| Urls.ResolvePass | git_repo.py:48-51 | On a collapsing url, one pass shortens it and keeps both the collapsing property and the final result |
| Urls.ShortensUnlessStuck | git_repo.py:49-51 | A pass shortens the url exactly when the url is not stuck. Stuck means one of two things: no `/` lies before the character preceding the first `..` while at least one character follows the `..`, or the `..` is at the very start with a `/` after it |
| Urls.StuckPersists | git_repo.py:49-51 | A url on which a pass does not shorten still has a `..` after the pass and still does not shorten |
| Urls.StuckWithoutSlash | git_repo.py:49-51 | With no `/` before the `..` and text after it, the pass result still has its first `..` at the same place, still with no `/` before it, so it is still stuck |
| Urls.StuckAtStart | git_repo.py:49-51 | With `..` at the very start and a `/` after it, the pass result still starts with `..` and still has a `/` after it, so it is still stuck |
| Urls.StuckForever | git_repo.py:48-51 | From a url on which a pass does not shorten, every number of passes leaves a `..` |
| Urls.NeverExits | git_repo.py:48-51 | On a url that does not collapse, the loop condition holds after every number of passes |
| Urls.Exits | git_repo.py:48-52 | On a collapsing url, some number of passes reaches `Resolve(url)` |
| Urls.CollapsesIffExits | git_repo.py:48-52 | `Collapses(u)` holds exactly when some number of passes leaves no `..`, that is, exactly on the inputs on which the loop returns |
| Urls.RelativeFixedPoint | git_repo.py:49-51 | `../x` with no `/` in `x` is a fixed point of a pass, so the loop never returns on it |
| Urls.NoSlashGrows | git_repo.py:50-51 | With no `/` before the `..` and at least two characters after it (as in an scp-like `host:repo/../a`), a pass makes the url longer |
| Urls.PassesStep | git_repo.py:48-51 | One more pass on a url with `..` is a pass followed by the remaining passes |
| Urls.Absolutize | git_repo.py:107-108 | A url starting with `../` is put after the parent url and a `/`; the submodule url always stays whole at the end, and a url without `..` is left as it is |
| Urls.RewriteSubmoduleUrl | git_repo.py:107-111 | The rewrite returns the collapse of the url, put after the parent url and a `/` when it starts with `../`; the result has no `..`, and a url without `..` is returned unchanged |
| Urls.RelativeHasDots | git_repo.py:107-110 | A url starting with `../` contains `..`, so a url without `..` is never put after its parent |
| Urls.NoDotsAround | git_repo.py:107-108 | Joining two urls without `..` by a `/` creates no `..` |
| Urls.SiblingUrl | git_repo.py:107-111 | For a parent url `P/C`, with no `/` in `C`, and a submodule url `../T`, the rewrite terminates and gives `P/T` |
| Urls.SiblingPass | git_repo.py:49-51 | One pass takes `P/C/../T` to `P/T` |
| Urls.SiblingDots | git_repo.py:49 | In `P/C/../T`, the first `..` is the one after `C/` |
| Urls.FirstDotsKept | git_repo.py:49 | Keeping the text up to and including the first `..` keeps the position `find` reports |
| Worktree.BranchName | git_repo.py:94 | The branch name starts with `t` and contains neither `:` nor `\` |
| Worktree.PosixPathKept | git_repo.py:94 | A path without `:` or `\` appears unchanged after the `t` |
| Worktree.WindowsPath | git_repo.py:94 | For `D:` followed by a path, the drive's colon is dropped and every `\` becomes `/` |
| Registry.ScanRemotes | git_repo.py:60-69 | The scan of one config's lines returns `Remotes(lines)`, or `None` when a line makes it raise |
| Registry.FirstUrlKept | git_repo.py:67-69 | Once a remote has a url, later lines never change or remove it |
| Registry.UrlLineStep | git_repo.py:67-69 | A clean url line, with or without its newline, in the section of a remote that has no url yet records that url for it |
| Registry.FirstUrlRecorded | git_repo.py:64-69 | The first url line of a remote's section, with or without its newline, is the url recorded for that remote, whatever follows |
| Registry.MissingQuoteRaises | git_repo.py:65-66 | A `[remote` line without `"` makes reading the config raise an `IndexError` |
| Registry.QuietLines | git_repo.py:64-69 | Lines without a remote header change nothing, as long as no url line comes while the current remote has no url yet |
| Registry.RemoteHeaderStep | git_repo.py:65-66 | The line `[remote "r"]` with its newline makes `r` the current remote and changes nothing else |
| Registry.ClonedConfigLists | git_repo.py:62-69 | A config laid out as a bare clone leaves it, every line ending in a newline, maps exactly `r` to the url. The layout is a `[core]` section, one `[remote "r"]` section whose first entry is the clean url, then further entries such as `fetch` |
| Registry.ScanAppend | git_repo.py:64-69 | Scanning a concatenation scans the first part and then the second from where it ended |
| Registry.CandidateInjective | git_repo.py:74-75 | Distinct indices give distinct candidate directory names |
| Registry.CandidateSetSize | git_repo.py:74-75 | The first k candidates are k distinct names |
| Registry.CandidatesBound | git_repo.py:58-75 | If the first k candidates all exist in a root of n directories, then k <= n, so the probe ends |
| Registry.OutcomeAt | git_repo.py:58-76 | Where the probe stops it returns that candidate. It raises instead exactly when that candidate exists and the scan of its config raises an `IndexError` (a `[remote` line without `"`). An existing candidate that is returned lists the url |
| Registry.GetRepo | git_repo.py:54-76 | The probe terminates on every root. It ends at the candidate where it first stops: every earlier candidate exists, its config scans without an `IndexError`, and it does not list the url |
| Registry.StopUnique | git_repo.py:58-76 | There is only one candidate at which the probe stops |
| Registry.StopBound | git_repo.py:58-76 | The probe stops within the first n + 1 candidates of a root of n directories |
| Registry.SameUrlSameDirectory | git_repo.py:58-76 | When the directory chosen for a url is then created with a config listing that url, the probe for the same url returns the same directory |
| Strs.Find | git_repo.py:49 | `find` gives -1 exactly when the substring is absent, and otherwise its first occurrence |
| Strs.RFind | git_repo.py:50 | `rfind` of a character between normalised bounds gives its last occurrence there, or -1 when there is none |
| Strs.Clamp | git_repo.py:51 | A bound in `[0, n]` is kept, a negative one counts from the end, one below `-n` becomes 0 and one above `n` becomes `n` |
| Strs.Split | git_repo.py:30 | `split` on one character gives at least one part, and no part holds the separator |
| Strs.SplitJoin | git_repo.py:30 | Joining the parts of a `split` with the separator gives back the input, which with `Strs.Split` fixes the parts uniquely |
| Strs.SplitHasSecond | git_repo.py:30 | `split('"')[1]` exists exactly when the line contains `"` |
| Strs.SplitAfter | git_repo.py:32 | Splitting after a first field that holds no separator gives that field, then the split of the rest |
| Strs.SplitSnoc | git_repo.py:32 | A non-separator character appended to a string joins the last part of its `split`; the other parts and their number stay the same |
| Strs.RStrip | git_repo.py:32 | `rstrip()` removes exactly the longest run of trailing whitespace |
| Strs.RStripNewline | git_repo.py:32 | `rstrip()` of a line with its newline is `rstrip()` of the line without it |
| Strs.RemoveAll | git_repo.py:94 | `replace(':', "")` leaves no `:`, keeps every other character with its count, and keeps a string without `:` unchanged |
| Strs.RemoveAllAppend | git_repo.py:94 | Removing `:` from a concatenation removes it from each part, so the remaining characters keep their order |
| Strs.ReplaceAll | git_repo.py:94 | `replace('\\', '/')` replaces each `\` in place and keeps every other character |
| Strs.Decimal | git_repo.py:75 | `str(n)` is a non-empty string of decimal digits whose value is `n`, without a leading zero when `n > 0` |
| Strs.DecimalInjective | git_repo.py:75 | Distinct numbers print differently |

## Left out

- Process and filesystem work: `run`, the `git` commands of `fun`, `os.chdir`, and the recursion of `fun` over submodules (git_repo.py:10-12, 78-117). They are I/O. Only the url rewrite of lines 107-111 and the branch name of line 94 are modelled.
- Printing and logging throughout.
- `pathlib`: `Path(url).name` and the absolute worktree path are given strings, and `repo_dir /` is left implicit. A candidate is a directory name in the root map.
- Registry.GetRepo: every existing candidate directory is assumed to have a readable `config`. Failure to `open` it is not modelled.
- Registry.GetRepo: the candidate `name_k` is built directly. `str.format` on `name + '_{}'` behaves differently when `name` itself contains `{` or `}`, and that case is not modelled.
- Urls.ResolveUrl requires `Collapses(url)`, because the source loop runs forever on the other inputs. Urls.NeverExits and Urls.CollapsesIffExits state exactly which inputs those are.
- Urls.RewriteSubmoduleUrl requires `Collapses` of the url it collapses, for the same reason.
- A submodule record whose url is `None` makes `fun` fail at `startswith` (git_repo.py:107). The rewrite is modelled on a url string.
- Files are given as their lines, not as text. `Submodules.Terminated` describes the lines `readlines` yields: each line with or without a trailing newline, a superset of what a file produces. The config scan has no such bridge: the newline ends up in the remote name of an unterminated `[remote "x` line. So the registry lemmas are stated on lines that end in a newline, or on either form where both behave alike.
- `std::filesystem::path` in the C++ record is modelled as a string.
- git_build.py, git_submodule.py, git_iterate.py and is_same_repo.py are not part of this model. They consist of subprocess plumbing and calls to helpers that are not defined in the repository's shown code.
- The C++ `main` only builds a shell command and runs it. It is not part of this model.

## Findings

| source | as written | input that shows it | evidently intended | confidence | as-written member | corrected member |
|---|---|---|---|---|---|---|
| git_repo.cpp:23-29 | `case 0` has no `break`, so the first `[submodule "…"]` header also reaches `case 1` and pushes the still-empty `(path, url)` | a file with one block `[submodule "a"]`, `\tpath = p`, `\turl = u` gives `("", "")` and `(p, u)` | the first header only leaves state 0, so one block gives one record, as the Python parser does | medium, not executed | CppSubmodules.OneBlockAsWritten | CppSubmodules.IntendedParsedBlocks |
| git_repo.cpp:42 | `if (state = 1)` assigns, so the final record is pushed even when no header was seen | an empty file gives one record `("", "")` | push the final record only when a header was seen, so an empty file gives no record | medium, not executed | CppSubmodules.EmptyFileAsWritten | CppSubmodules.IntendedParsedEmpty |
