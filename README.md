# b-is-branch: a verified model of the branch bookkeeping

`b` is a small command-line helper around git. It has three commands:

- `b switch` lists the local branches and checks out the one the user picks. git lists them oldest first. The tool then sorts the list on one character of each line, the first character of the branch name, read as a date (see below).
- `b delete` offers every branch except the checked-out one for deletion.
- `b delete-merged` collects merged branches and deletes them after one confirmation. A branch counts as merged in either of two cases:
  - `git branch --merged` lists it. Run with no argument, this lists the branches merged into the checked-out branch (HEAD), not into the trunk.
  - It was squash-merged into the trunk. The tool builds a commit with the branch's tree and the merge base as its only parent, and `git cherry` finds an equivalent change in the trunk. The trunk is `main`, else `master`.

This project models that logic in Dafny. It covers:

- `index.js`'s parsing of git's output;
- the trunk loop and the squash loop;
- removing duplicates from the merged list;
- the decisions of every command: which prompt is shown, which git call moves or deletes a ref, and how the run ends.

The modules are:

- `JsText` (`jstext.dfy`): the JavaScript string operations the code uses (`split`, `startsWith`, `trim`, `trimEnd`), with round-trip lemmas for split and join.
- `GitCli` (`gitcli.dfy`): the `git()` helper. git is an oracle: a function from an argument vector to what git prints. The helper trims trailing white space from that output.
- `Branches` (`branches.dfy`): `getBranches` and `parseBranch`, including the current-branch regular expression `/\*#(.+)#/` with its leftmost-start, longest-match semantics. It also renders the listing git prints, so the parser can be checked against it.
- `Merged` (`merged.dfy`): `getMergedBranches` and `getSquashMergedBranches`. The squash search is a method with the source's two loops, proved equal to a specification function.
- `Flows` (`flows.dfy`): `switchBranch`, `selectBranchesToDelete`, `deleteBranches`, `run` and the command dispatch. Each run is a `Trace` made of three parts:
  - the prompts shown;
  - the git calls that move or delete a ref (`checkout`, `branch -D`). Each squash test's `commit-tree` also writes a commit object, but no ref points to it, so it is not recorded;
  - a `Termination`. `process.exit(n)` is `Exited(n)`, a thrown error is `Threw(name)`, and a normal finish is `Returned`.
- `Wrappers`, `Process`: `Option` (`None` is JavaScript's `undefined`), `Termination` and `Step`.

Where the code departs from its evident aim, the model follows the code:

- The squash part of `getMergedBranches` does not skip the checked-out branch. So `delete-merged` can offer the current branch when the squash test accepts it.
- The empty-patch case of the squash test (a branch with no change since the merge base) is whatever `git cherry` answers. It is not fixed as "merged".
- `getBranches` sorts on `a[3]`, one character of the line, not on the date column. For a name that starts with a letter, `new Date` gives `NaN`, the comparator gives `NaN`, and the sort keeps git's order.

## Model

| member | source | states |
|---|---|---|
| GitCli.Git | index.js:233-235 | git's output with only trailing white space removed: a prefix of the raw output, followed by white space only |
| Branches.ParseAll | index.js:155 | one choice per line, each `parseBranch` of that line, in order |
| Branches.ParseBranch | index.js:160-167 | `value` and `short` are both the second `#`-separated column, or undefined when the line has fewer columns |
| Branches.ParseFormattedLine | index.js:160-167 | on a line in the listing format, `parseBranch` gives back the branch name as value and short, and `name (relative date)` as label |
| Branches.ParseCutsNameAtHash | index.js:160-166 | a branch name that contains `#` comes back cut at its first `#` |
| Branches.CurrentBranch | index.js:151 | undefined exactly when the regular expression finds no match; otherwise text without `#`. `MatchFrom` and `CurrentIsTextToNextHash` state the rest |
| Branches.MatchFrom | index.js:151 | the match of `/\*#(.+)#/`: the leftmost `*#` followed on the same line by a later `#`, and for that start the last such `#` |
| Branches.NoMarkerNoCurrent | index.js:151 | with no `*#` in the listing the current branch is undefined |
| Branches.CurrentIsTextToNextHash | index.js:151 | when the first `*#` starts a match, the current branch is the text between it and the next `#` |
| Branches.CurrentOfRendered | index.js:142-151 | for a listing in git's format, the current branch is the name on the first line marked `*` |
| Branches.CurrentOfDetached | index.js:142-151 | when no line is marked (detached HEAD) the current branch is undefined |
| Branches.RawListing | index.js:233-235 | git ends the listing with a newline; `git()` hands on exactly the rendered listing without it |
| Branches.GetBranches | index.js:141-158 | an empty listing ends the run with status 1 and returns no list; otherwise it returns the regex's current branch and one choice per sorted line |
| Branches.ListedOfRendered | index.js:142-157 | for a listing in git's format, sorted by any permutation, the choices are exactly the entries of the listed branches |
| Merged.DirectMergedAsWritten | index.js:188-192 | the direct part as written, over the lines of git's output: exactly the names `KeepMergedAsWritten` keeps |
| Merged.KeepMergedAsWritten | index.js:188-192 | the direct part as written: lines not starting with `*` and not equal to `main`/`master` before trimming, then trimmed |
| Merged.AsWrittenKeepsTrunk | index.js:190-192 | a line `  main` or `  master` passes the untrimmed test, and the trunk name ends up in the list |
| Merged.AsWrittenOffersMain | index.js:187-192 | on `feature`, with output `* feature` / `  main`, the list as written contains `main` |
| Merged.KeepMerged | index.js:188-192 | corrected direct part: exactly the trimmed names of lines not starting with `*`, except `main` and `master` |
| Merged.DirectMerged | index.js:187-192 | (corrected) the direct part of `git branch --merged` never contains `main` or `master` |
| Merged.DirectMergedOfGitOutput | index.js:188-192 | for output in git's two-column format, the direct part is exactly the non-current, non-trunk names, in listing order |
| Merged.Trunk | index.js:206-212 | the trunk is `main` or `master` and is a branch; none only when neither is a branch. `TrunkPrefersMain` fixes which |
| Merged.TrunkPrefersMain | index.js:206-212 | the trunk is `main` whenever `main` is a branch, `master` when only `master` is, and none otherwise |
| Merged.ResolveTrunk | index.js:206-212 | the trunk loop with `break` computes that same trunk |
| Merged.SquashVerdict | index.js:222-226 | the squash test of one branch: merge-base, tree, commit-tree, then `cherry` output starting with `-`. `FilterSquashed` proves the loop makes exactly these calls |
| Merged.SquashFilter | index.js:218-228 | a branch is kept exactly when it is not the trunk and its cherry output starts with `-` |
| Merged.SquashFilterAppend | index.js:218-228 | results follow listing order: testing one more branch appends at most that branch |
| Merged.SquashMerged | index.js:197-231 | empty ref output gives `[]` before any trunk lookup; no trunk ends the run with status 1; otherwise exactly the non-trunk branches the squash test accepts |
| Merged.FilterSquashed | index.js:218-228 | the squash loop skips the trunk with `continue` and makes the four git calls (merge-base, tree, commit-tree, cherry) for each other branch. It builds exactly the filtered list, in listing order |
| Merged.SquashMergedBranches | index.js:197-231 | the method with both loops returns exactly the squash-merged list or the exit |
| Merged.DedupFrom | index.js:194 | each name not seen before, once: no duplicates, and exactly the names of the input not already seen |
| Merged.Dedup | index.js:194 | `[...new Set(names)]` holds every name of the input exactly once |
| Merged.DedupAppend | index.js:193-194 | removing duplicates from `a + b` keeps `a`'s names first, then `b`'s names that `a` lacks |
| Merged.DedupDistinct | index.js:194 | a list without duplicates is left unchanged |
| Merged.DedupIdempotent | index.js:194 | removing duplicates twice is the same as once |
| Merged.MergedBranches | index.js:187-195 | no duplicates; exactly the direct and squash-merged names; status 1 exactly when there is no trunk |
| Merged.MergedExcludesTrunk | index.js:187-195 | (corrected) the resolved trunk is never among the merged branches |
| Merged.MergedOrder | index.js:193-194 | direct-merged names come first in their order, then squash-merged names not already present |
| Flows.SwitchBranch | index.js:52-72 | empty listing exits 1; the only git change is a `checkout` of the picked name, which differs from the current branch; an interrupted select throws `ExitPromptError` with no change |
| Flows.SwitchOnlyBranch | index.js:55-58 | when the current branch is the only branch, the run exits 0 with no prompt |
| Flows.SwitchPicks | index.js:60-71 | one select prompt defaulting to the current branch; picking it exits 0, any other name gives exactly one checkout |
| Flows.SwitchOnRendered | index.js:52-71 | with several branches in git's format, picking the checked-out one changes nothing and any other is checked out once |
| Flows.SwitchCommand | index.js:12-71 | `s`/`switch` from git's raw output (listing plus final newline): picking the checked-out branch exits 0 with no change, any other name is checked out once |
| Flows.Others | index.js:172 | the deletable choices are exactly those whose value is not the current branch |
| Flows.OthersAppend | index.js:172 | the deletable filter keeps the original order |
| Flows.SelectBranchesToDelete | index.js:169-185 | empty listing exits 1. With no other branch, exits 0 before any prompt. Otherwise one checkbox offers exactly the branches other than the current one, in order. The answer is the selection, and a cancel throws `ExitPromptError` |
| Flows.NothingToDelete | index.js:172-176 | when every branch is the current one, the run exits 0 before any prompt |
| Flows.DeleteBranches | index.js:74-93 | an empty selection exits 0 with no git call; declining returns normally and interrupting throws `ExitPromptError`, both deleting nothing; confirming issues one `branch -D` with all names in order |
| Flows.Run | index.js:42-50 | an interrupted prompt ends the run normally; any other error passes through unchanged |
| Flows.Status | index.js:95-96 | without a command, an empty listing exits 1; otherwise the run only reads |
| Flows.Dispatch | index.js:9-38 | help ends normally, an unrecognized command exits 1, and no run ends on an interrupted prompt |
| Flows.AtMostOneUpdate | index.js:9-93 | every command makes at most one change: a checkout of a non-current branch, or one confirmed forced deletion of a non-empty list |
| Flows.DeleteNeverOffersCurrent | index.js:16-18 | `delete` (or `d`) never offers the checked-out branch |
| Flows.ConfirmedDeletion | index.js:74-93 | without a selection prompt, only the confirmation is shown, and what is deleted is exactly the list found |
| Flows.DeleteMergedDeletes | index.js:20-23 | (corrected) `delete-merged` (or `dm`) shows only the confirmation, deletes each name once and never deletes the trunk |
| Flows.CancelledSwitch | index.js:42-71 | interrupting the select of `s`/`switch` checks nothing out, and a run that showed the prompt ends normally |
| Flows.CancelledCheckbox | index.js:42-50 | interrupting the checkbox of `d`/`delete` deletes nothing, and a run that showed it ends normally |
| Flows.NotConfirmed | index.js:42-93 | declining or interrupting the confirmation of `d`/`delete`/`dm`/`delete-merged` deletes nothing; once the confirmation was shown the run ends normally |

## Findings

| source | as written | input that shows it | evidently intended | confidence | as-written member | corrected member |
|---|---|---|---|---|---|---|
| index.js:190-192 | the `main`/`master` exclusion compares the untrimmed line, but git indents every non-current line of `git branch --merged` by two spaces, so the test never fires | on branch `feature`, with `main` merged into it, git prints `* feature` / `  main`, and `main` reaches the deletion list | compare the trimmed name, so that the trunk is never offered for deletion | high; not executed | Merged.AsWrittenOffersMain | Merged.DirectMerged |

The `delete-merged` flow in this model (`Merged.MergedBranches`, `Flows.Dispatch`, `Flows.DeleteMergedDeletes`) uses the corrected direct part.

## Left out

- Merged.MergedBranches: uses the corrected `main`/`master` test (see Findings), not the test as written.
- Flows.Dispatch: runs `dm`/`delete-merged` on the corrected merged list (`Merged.MergedBranches`), so it never offers the trunk, whereas index.js as written can.
- Which branches `git branch --merged` prints is git's answer. With no argument it tests against HEAD, not the trunk. The model takes git's output as given and does not capture this difference.
- `printStatus` (index.js:95-137) shows the branches and the diff summaries. Only its empty-listing exit is modelled, in `Flows.Status`. The rest is terminal output.
- The sort in `getBranches` and `compareDate` (index.js:154, 237-239) depend on JavaScript `Date` parsing, `NaN` and the engine's sort. The sorted order is an input (`Sorter`). The lemmas that need it assume only that it is a permutation of the lines.
- What git computes (merge bases, trees, commits, `cherry`, `branch --merged`) is outside the model: the `Oracle` is a function from arguments to output. A git call that fails and throws is not modelled. Every call returns output.
- Colours (`chalk`), messages on the console, and the usage text are presentation. The label of a choice keeps the branch name and the relative date without the dimming.
- The prompt library is not modelled: its answers are inputs. A select answer is a branch name, so a choice whose value is undefined (a line without `#`) is never picked in the model.
- Strings are sequences of Unicode characters, not UTF-16 code units. No operation here splits or matches on a character outside the Basic Multilingual Plane.
- Termination is a returned value: the real process exit and the `async`/`await` scheduling are not modelled. An error that `run` rethrows stays as `Threw(name)`.
