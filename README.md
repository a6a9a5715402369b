# Auto Release Generator: the release handler, modelled in Dafny

The Auto Release Generator is a GitHub App. When it receives a push event, it looks for a release directive
`[release:VERSION]` in the messages of the pushed commits. If the pushed ref does not end
with the name of the repository's default branch, it rewrites the `__version__ = "..."` declaration in
`app/__init__.py` to the new version by committing to the pushed branch.

Two parts of app/app.py are modelled here:

- `get_command` (modules `Command`, `LazyRegex`, `PyStr`) is pure, so it is modelled as functions:
  - the regular expression `\[{prefix}:(.+?)\]` is evaluated the way `re.findall` does, as a
    leftmost, non-overlapping scan with the lazy `.+?`;
  - `get_command` takes the last group found and applies `str.strip()` to it, or returns `None`
    when nothing is found.
- `release` (module `Release`) is imperative, so it is modelled as the method `Release.Release`:
  - a `for` loop folds `last_command = last_command or get_command(...)` over the commits;
  - the early returns follow the source;
  - the version is looked up with `re.search`, replaced with `str.replace`, and written with
    `update_file` only when the content changed.

  The GitHub objects become plain inputs (`Release.Repository`), and the method returns:
  - the trace of API calls it makes;
  - how the call ends (`Release.Outcome`). A write is the outcome `Updated` together with its
    `update_file` arguments.

The Python `str` methods the handler uses are spelled out in `PyStr`:
- `isspace`, as a list of code points;
- `strip`;
- `endswith`;
- `replace`, including the all-occurrences rule.

The regex engine is modelled in `LazyRegex` for the one pattern shape both regexes have:
`O(.+?)C`, where the opener `O` is a literal and the closer `C` is a literal character.

Behaviour modelled as the code has it:
- Across commits the first non-empty directive wins. Python's `or` treats `""` as false, so:
  - when no commit has a non-empty directive, the result is what the last commit yields;
  - a blank `[release: ]` in the last commit therefore gives the empty directive `""`
    (`ReleaseExamples.BlankDirectiveLast`). When the ref does not end with the default branch's
    name and a version is found, the handler goes on and writes the version away: a found
    version is never empty (`Release.FindVersionShape`), so `""` differs from it
    (`Release.HandleWritesIffDiffers`, `ReleaseExamples.BlankDirectiveWrites`);
  - a blank directive followed by a commit without one gives `None`
    (`ReleaseExamples.BlankDirectiveThenNone`).
- Within one message the last directive wins.
- The default branch is recognised by `event.ref.endswith(default_branch)`, not by equality. So
  a ref such as `refs/heads/remaster` is skipped like `refs/heads/master` when the default branch
  is `master` (`ReleaseExamples.RemasterSkipped`).
- The new content is compared with the content of the version file on the pull request's base
  branch, which is also the content that is rewritten. The copy on the pushed branch is read only
  for its sha.
- `str.replace` replaces every occurrence of the version string in the file, not only the one in
  the `__version__` declaration.

## Model

| member | source | states |
|---|---|---|
| PyStr.IsSpace | app/app.py:60 | the characters Python's `str.isspace` accepts, which `strip()` removes: the code points 9-13, 28-32, 133, 160, 5760, 8192-8202, 8232, 8233, 8239, 8287 and 12288 |
| PyStr.Strip | app/app.py:60 | `strip()` returns the slice of the text between its leading and trailing whitespace; everything cut off is whitespace, and the result neither starts nor ends with whitespace |
| PyStr.StripIdempotent | app/app.py:60 | stripping twice is stripping once |
| PyStr.EndsWith | app/app.py:72 | `s.endswith(suffix)`: the last `|suffix|` characters of `s` are `suffix` |
| PyStr.EndsWithIff | app/app.py:72 | `ref.endswith(branch)` holds exactly when `ref` is some string followed by `branch` |
| PyStr.ReplaceAll | app/app.py:83 | `s.replace(pat, rep)`: scanning left to right, each occurrence of `pat` is replaced by `rep` and the scan resumes after it; other characters are copied; an empty `pat` puts `rep` before every character and at the end |
| PyStr.ReplaceAllSame | app/app.py:83 | replacing a string by itself leaves the text unchanged |
| PyStr.ReplaceAllAbsent | app/app.py:83 | replacing a non-empty string that does not occur leaves the text unchanged |
| PyStr.ReplaceAllLength | app/app.py:83 | the replacement never shrinks the text when the new string is at least as long as the old one, and never grows it when it is no longer |
| PyStr.ReplaceAllCopiesPrefix | app/app.py:83 | when no occurrence of the old string starts among the first `n` characters, `replace` copies them unchanged and replaces in the rest |
| PyStr.ReplaceAllDiffers | app/app.py:83-84 | when a non-empty string occurs in the text and the replacement differs from it, the replaced text differs from the text |
| PyStr.ReplaceAllChanges | app/app.py:83-84 | when a non-empty string occurs in the text, replacing it changes the text exactly when the replacement differs from it |
| LazyRegex.MatchUnique | app/app.py:57 | a match of `O(.+?)C` at a given index has a single possible end |
| LazyRegex.CloseFrom | app/app.py:57 | the lazy `.+?C` from an index stops at the first `C`; it fails when a newline or the end of the text comes first |
| LazyRegex.MatchAt | app/app.py:57 | the regex engine's attempt at one index succeeds exactly at a match (opener, at least one character, first closer after it, no newline), and reports that match's end |
| LazyRegex.FindAll | app/app.py:58 | the matches `re.findall` scans lie inside the text, each after the scan's starting index |
| LazyRegex.FindAllLeftmost | app/app.py:58 | `re.findall` returns matches only, in order and without overlap; there is no match before the first, none in any gap, none after the last |
| LazyRegex.FindAllMatch | app/app.py:58 | every element `re.findall` returns is a match |
| LazyRegex.FindAllSkips | app/app.py:58 | `re.findall` passes over a stretch of text without the opener's first character: the matches from its start are those from its end |
| LazyRegex.Search | app/app.py:80 | `re.search` returns the leftmost match, or `None` exactly when there is no match at all |
| LazyRegex.SearchIsFirstOfFindAll | app/app.py:58-80 | `re.search` finds the first match `re.findall` finds, and nothing when that finds none |
| LazyRegex.Group | app/app.py:60 | the captured group lies between the opener and the closer |
| Command.Opener | app/app.py:57 | the literal start `[prefix:` of the pattern `\[{prefix}:(.+?)\]`, the prefix taken as plain text |
| Command.GetCommand | app/app.py:47-61 | `get_command(text, prefix)`: the matches `re.findall` finds for `\[{prefix}:(.+?)\]`; `None` when there are none, else the last one's group, stripped |
| Command.Message | app/app.py:58 | a commit message written as fillers and directives `[prefix:x]` in turn, starting and ending with a filler |
| Command.GetCommandNoneIff | app/app.py:57-61 | `get_command` returns `None` exactly when the text holds no `[prefix:X]` with `X` non-empty and free of newlines |
| Command.GroupShape | app/app.py:57 | a captured group is non-empty, has no newline, and has `]` at most as its first character |
| Command.GetCommandClean | app/app.py:57-60 | every returned value has no whitespace at either end, no newline, and `]` at most as its first character |
| Command.FindAllMessageCount | app/app.py:58 | on a message made of fillers without `[` and directives `[prefix:x]` whose values are non-empty, free of newlines and free of `]` after their first character, `re.findall` finds one match per directive |
| Command.ScanAtMessage | app/app.py:58 | on a message of that shape, `re.findall` passes over the first filler, takes the first directive as one match whose group is its value, and continues where the rest of the message begins |
| Command.FindAllMessageLast | app/app.py:58-60 | on such a message, the last group `re.findall` finds is the last directive's value |
| Command.LastDirectiveWins | app/app.py:57-60 | with several directives in one message, and any text without `[` before, between and after them, `get_command` returns the last directive's value, stripped |
| Command.OnlyDirective | app/app.py:57-60 | a message that is one directive `[prefix:x]` yields `x`, stripped |
| Command.FillerNoCommand | app/app.py:57-61 | a message without `[` yields `None` |
| Command.NoOpenerNoCommand | app/app.py:57-61 | a text in which `[prefix:` never occurs yields `None` |
| Command.OpenerHasPrefixChar | app/app.py:57 | wherever `[prefix:` occurs, the prefix's first character occurs |
| Command.MissingPrefixCharNoCommand | app/app.py:57-61 | a text lacking the first character of the prefix yields `None` |
| CommandExamples.LastOfTwo | app/app.py:57-60 | two directives in a row yield the second one's value, stripped |
| CommandExamples.GetCommandSingle | tests/test_app.py:81-82 | `get_command("[release:command]", "release")` is `"command"` |
| CommandExamples.GetCommandOtherPrefix | tests/test_app.py:85-86 | `get_command("[release:command]", "prefix")` is `None` |
| CommandExamples.GetCommandMultiple | tests/test_app.py:89-90 | `get_command("[release:command1][release:command2]", "release")` is `"command2"` |
| CommandExamples.GetCommandAmidText | app/app.py:57-60 | `get_command("Bump\n[release:1.0] then [release:2.0]", "release")` is `"2.0"`: text around the directives does not matter |
| Release.Truthy | app/app.py:69 | Python truthiness of an optional string: `None` and `""` are false |
| Release.Or | app/app.py:69 | definition: Python's `a or b` on optional strings, `a` when it is truthy, otherwise `b`; what the loop's use of it means is stated by `Release.EffectiveIsFirst`, `Release.FirstDirectiveSnoc` and `Release.LaterNeverOverride` |
| Release.CommitDirective | app/app.py:69 | `get_command(commit.message, "release")` |
| Release.EffectiveDirective | app/app.py:66-69 | the value of `last_command` after the loop: `None` `or` each commit's `get_command(message, "release")`, folded from the first commit to the last |
| Release.FirstDirective | app/app.py:66-69 | the same value read from the front: the first commit's directive when it is the only commit or its directive is non-empty, else the value for the remaining commits |
| Release.EffectiveIsFirst | app/app.py:67-69 | the loop's left fold equals the front-first search: the first commit's directive that is non-empty, or else the last commit's |
| Release.FirstDirectiveSnoc | app/app.py:67-69 | reading one more commit from the back, the front-first search behaves like `or` |
| Release.FrontSearchFinds | app/app.py:67-69 | the front-first search returns the directive of the first commit with a non-empty one |
| Release.EffectiveOfTwo | app/app.py:67-69 | for two commits the loop yields the first one's directive `or` the second one's |
| Release.FirstNonEmptyWins | app/app.py:67-69 | when commit `i` is the first with a non-empty directive, that directive is the effective one |
| Release.NoNonEmptyTakesLast | app/app.py:67-69 | with no non-empty directive in any commit, the effective value is the last commit's (`None` or `""`) |
| Release.LaterNeverOverride | app/app.py:67-69 | once a non-empty directive has been found, later commits never change it |
| Release.EffectiveTruthyIff | app/app.py:67-69 | the effective directive is non-empty exactly when some commit's directive is |
| Release.FindVersion | app/app.py:80 | `re.search(r"__version__ = \"(.+?)\"", content).group(1)`: the group of the leftmost match, or `None` when there is no match |
| Release.FindVersionShape | app/app.py:80 | a found version is non-empty, has no newline, has no `"` after its first character, and occurs in the content |
| Release.FindVersionNoneIff | app/app.py:80 | the version lookup fails exactly when `__version__ = "X"` occurs nowhere in the content |
| Release.WriteIffDirectiveDiffers | app/app.py:80-84 | with a version found, the replaced content differs from the base content exactly when the directive differs from the version |
| Release.BaseReads | app/app.py:76-78 | the first two calls on a feature branch: the pull request lookup for `event.after`, then the read of `app/__init__.py` on the pull request's base branch |
| Release.AllReads | app/app.py:82 | the base reads followed by the read of `app/__init__.py` on the pushed ref |
| Release.ReleaseUpdate | app/app.py:83-92 | the arguments of `update_file`: the version file path, `Release <directive>`, the base content with the version replaced, the pushed file's sha, and the pushed ref as branch |
| Release.Decide | app/app.py:70-92 | the run for a given directive: none gives no calls and `NoDirective`; a ref ending with the default branch's name gives no calls and `DefaultBranch`; otherwise the pull request lookup and the base read, then `VersionNotFound` when no version is declared, else the read of the pushed branch's file, then the write of the replaced base content when it differs from the base content (`Updated`), or no write (`UpToDate`) |
| Release.Handle | app/app.py:65-92 | the run of the handler: `Decide` for the directive the loop over the commits computes |
| Release.Release | app/app.py:65-92 | the method's trace of API calls and its outcome are exactly those `Release.Handle` prescribes for the event and the repository; the loop keeps the invariant that the directive so far is the left fold of `or` over the commits read so far. The `Release.Handle*` lemmas say what that run is |
| Release.HandleNothingToDo | app/app.py:67-74 | with no directive nothing is read or written; with a directive and a ref that ends with the default branch's name (the default branch itself, or any other branch whose name ends with it), nothing is read or written either |
| Release.HandleVersionNotFound | app/app.py:75-80 | for any other ref the first two calls are the pull request lookup and the read of the base branch's version file; the run ends without a declared version exactly when there is a directive, the ref does not end with the default branch's name, and the base content has no `__version__ = "..."`, and then nothing else is called |
| Release.HandleWritesIffDiffers | app/app.py:80-84 | a write happens exactly when there is a directive, the ref does not end with the default branch's name, a version is found, and the directive differs from that version |
| Release.HandleWrite | app/app.py:82-92 | the write goes to `app/__init__.py` on the pushed branch, with message `Release <directive>`, the base content with every occurrence of the version replaced by the directive (which differs from the base content), and the sha of the pushed branch's file; it comes after the three reads |
| Release.HandleUpToDate | app/app.py:83-84 | without a write, the replacement left the base content unchanged, and the three reads were made |
| Release.HandleTraces | app/app.py:65-92 | the handler's calls are nothing, the two base reads, all three reads, or the three reads followed by the write the outcome reports |
| Release.HandleWritesLast | app/app.py:84-92 | the handler writes at most once, as its last call, and that write is the one the outcome reports |
| Release.FindVersionLine | app/app.py:80 | for a plain version `v` (`Release.PlainVersion`: non-empty, with no `"` and no newline), the declaration `__version__ = "v"` declares `v`; the condition is needed, since `__version__ = ""` declares nothing to the lookup and `__version__ = "a"b"` yields `a` |
| Release.OpenerApartByFirst | app/app.py:83 | a version that does not begin with a character of `__version__ = "` does not occur inside that opener |
| Release.ReplaceVersionLine | app/app.py:83 | releasing `d` over `__version__ = "v"` gives `__version__ = "d"`, for a version `v` free of `"` and newlines of which no occurrence starts inside `__version__ = "` (with `v = "_"` the replacement would also rewrite the underscores of `__version__`) |
| Release.VersionBump | app/app.py:80-83 | under the same condition on `v`, the bump finds the version, writes `d` in its place, and the written file declares `d` when `d` is itself free of `"` and newlines |
| ReleaseExamples.BranchExamples | app/app.py:72 | with the default branch `master`, `refs/heads/master` ends with its name and `refs/heads/issue-42` does not; `refs/heads/remaster`, another branch, ends with it too |
| ReleaseExamples.RemasterSkipped | app/app.py:67-74 | with the default branch `master`, a directive pushed to `refs/heads/remaster` gives no calls and the outcome `DefaultBranch` |
| ReleaseExamples.FirstCommitWins | app/app.py:67-69 | commits `[release:command1]` then `[release:command2]` release `command1` |
| ReleaseExamples.LaterCommitFills | app/app.py:67-69 | a commit without a directive does not hide a later one |
| ReleaseExamples.BlankDirectiveLast | app/app.py:60-71 | a blank `[release: ]` in the only commit gives the empty directive, which is not `None` |
| ReleaseExamples.BlankDirectiveWrites | app/app.py:67-92 | a lone `[release: ]` on a ref that does not end with the default branch's name writes whenever the base content declares a version, with the commit message `Release ` |
| ReleaseExamples.BlankDirectiveThenNone | app/app.py:67-71 | a blank directive followed by a commit without one gives `None` |
| ReleaseExamples.BumpExample | app/app.py:80-83 | `__version__ = "0.1"` declares `0.1`, and releasing `0.2` over it gives `__version__ = "0.2"` |
| ReleaseExamples.VPrefixedBump | app/app.py:80-83 | a version starting with `v`, which occurs in `__version__`, is bumped as well: releasing `2.0` over `__version__ = "v1.0"` gives `__version__ = "2.0"` |

## Left out

- The Flask application, its routes `root` and `webhook`, logging and Sentry set-up (app/app.py:22-44, 95-113): HTTP and process plumbing.
- The GitHub API is not modelled: `get_commit(...).get_pulls()[0].base.ref`, both `get_contents` calls, `decoded_content.decode()` and `update_file` (app/app.py:77-79, 82, 86-92) are foreign network calls.
  - Their results are inputs: the default branch, the pull request's base branch, the version file's text on it, and the sha of the version file on the pushed branch.
  - The calls are assumed to succeed. A push whose commit belongs to no pull request, a missing file and a rejected write are not modelled.
  - The byte-to-text decoding is assumed to succeed.
- The call to `update_file` is recorded in the returned trace, not performed on a repository state.
- The `print` before the write (app/app.py:85): console output.
- The release-creation branch for pushes to a ref that ends with the default branch's name is an empty stub in the code (app/app.py:72-74). It is modelled as the outcome `DefaultBranch`, with no calls.
- The root-level app.py is an older stub whose `release` only prints the event (app.py:30-32). Nothing in it is modelled.
- The mock-based test `test_release` (tests/test_app.py:93-95) expects an `update_file` call with no arguments, which the code never makes. It is not modelled.
- The `:raises: ValueError` line of `get_command`'s docstring (app/app.py:55): nothing in the code raises it.
- The prefix is treated as literal text. The code puts it into the regex unescaped (app/app.py:57), so a prefix with regex metacharacters would behave differently. The handler only passes `release`.
- General regular expressions are not modelled, only the shape `O(.+?)C` with a literal `O` and a one-character literal `C` that both patterns have.
- Configuration loading, progress or status reporting, and recovery from a concurrent write: the code has none of these.
- Command.LastDirectiveWins: the text around and between the directives is assumed free of `[`. A stray `[` could start a match that takes in part of a directive, and such messages are not covered; `Command.GetCommandNoneIff` and `Command.GetCommandClean` still hold for every text.
