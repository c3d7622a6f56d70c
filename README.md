# branch-navigator, modelled in Dafny

branch-navigator is a terminal picker for recently used Git branches. It reads the HEAD
reflog for the branches one has moved between. When those run short, it adds local branches
ordered by commit date. It shows the list with the current branch first. Once a branch is
chosen, it checks it out, merges it, or deletes it; a branch that is not fully merged is
deleted only after a confirmation.

This project models the core of the program and proves properties of the model. It has
seven modules:

| file | module | what it models |
|---|---|---|
| `core.dfy` | `Core` | optional values, and Go `(value, error)` results with the error kinds the callers tell apart |
| `text.dfy` | `Text` | `strings.TrimSpace`, `Trim`, `ToLower`, `HasPrefix`, `Contains`, `LastIndex`, `Split`, for ASCII |
| `git.dfy` | `Git` | the reflog subject parser, the line filter, and the guards of the `Client` methods over an abstract runner |
| `navigator.dfy` | `Navigator` | `New`, `RecentBranches` and its `appendBranches` loop, over a snapshot of the Git service |
| `ui.dfy` | `Ui` | themes and `ThemeByName`, frames as strings, and the `Select` loop with `handleEscape` over a byte stream |
| `app.dfy` | `App` | `Run`, `validateDeps`, the merge report, the delete protocol, `confirmBranchDeletion`, `printIfNotEmpty` |
| `cli.dfy` | `Cli` | `resolveAction`, the checks after flag parsing, `handleDeleteAction`, and the end of `main` |

**Oracles.** A dependency the program calls is a value:
- the Git runner is a function from an argument list to output or an error;
- the navigator's Git service is a snapshot of its four answers;
- the orchestrator's Git client, navigator and terminal are functions from their arguments to
  their results.

**Logs.** Each operation returns the calls it made, in order. A picker session returns the
frames it drew and the text it printed. An orchestrator run returns the lines it wrote to its
Output and Error streams.

**Imperative code.** The source's loops and step-by-step procedures are Dafny methods, with
loops where the source has them. Most of them are proved equal to a functional
specification, and the properties are proved about that specification:
`Git.SplitAndFilter`, `Git.ParseReflogSubjects`, `Navigator.AppendBranches`,
`Navigator.RecentBranches`, `Ui.Select`, `Ui.HandleEscape`, `Ui.Reader.ReadByte`, `App.Run`,
`App.Act`, `App.HandleDelete`, `App.Candidates` and `Cli.HandleDeleteAction`. Two methods,
`Cli.ResolveAction` and `Cli.PostParse`, have no specification function. Their `ensures`
state the result directly for every combination of flags and limit.

**Where the tests and the code disagree, the model follows the code:**
- The navigator tests expect a fallback, or a joined error, when the reflog fails. The code
  returns the reflog error at once.
- The picker tests build the UI with a two-argument `New`, and expect a `\033[32m` highlight.
  `New` takes three arguments, and the row colours come from the theme.
- `cmd/branch-navigator/main.go` also calls `ui.New` with two arguments. The model treats its
  picker as the orchestrator's `Terminal`.

## Model

| member | source | states |
|---|---|---|
| Git.Destination | internal/git/git.go:181-185 | the name after a prefix is trimmed of white space, then of quote characters; a returned name is non-empty with no quote at either end, and a blank one gives nothing |
| Git.ExtractBranchFromSubject | internal/git/git.go:163-204 | an empty subject gives nothing; a name is only found after one of the three `checkout:` prefixes, and it is never empty |
| Git.MovingFromRoundTrip | internal/git/git.go:175-186 | `checkout: moving from X to Y` gives Y, taken after the last " to ", for every plain name Y |
| Git.MovingToRoundTrip | internal/git/git.go:187-193 | `checkout: moving to Y` gives Y |
| Git.SwitchingRoundTrip | internal/git/git.go:194-200 | `checkout: switching to 'Y'` gives Y with its quotes stripped |
| Git.MovingFromWithoutDestination | internal/git/git.go:177-180 | a `moving from` subject without " to " gives nothing |
| Git.DestinationOfPlain | internal/git/git.go:181-186 | trimming white space, then quote characters, recovers a plain name from any quote padding |
| Git.KeepNonBlank | internal/git/git.go:153-159 | the kept lines are trimmed and non-empty, and there are no more of them than input lines |
| Git.KeepNonBlankAppend | internal/git/git.go:153-159 | filtering is done line by line: filtering a concatenation concatenates the filtered parts, so order is kept |
| Git.KeepNonBlankLeavesOut | internal/git/git.go:151-154 | trimming never brings back a character the lines lack, so no kept line holds a newline |
| Git.SplitAndFilter | internal/git/git.go:150-161 | the loop returns exactly the trimmed non-blank lines in order, each without a newline |
| Git.ExtractEach | internal/git/git.go:142-146 | at most one name per line, and every name non-empty |
| Git.ExtractEachAppend | internal/git/git.go:142-146 | names are taken line by line, so their order follows the lines |
| Git.ParseReflogSubjects | internal/git/git.go:139-148 | the loop returns the names of the lines that parse, in order, and no more names than non-blank lines |
| Git.CurrentBranch | internal/git/git.go:60-69 | no runner is an error with no run; otherwise exactly one `rev-parse` run, whose answer is returned |
| Git.ReflogBranchMoves | internal/git/git.go:72-81 | one `reflog` run, whose output is parsed into names, or whose error is returned |
| Git.BranchesByCommitDate | internal/git/git.go:84-93 | one `for-each-ref` run, whose output is filtered to non-blank lines, or whose error is returned |
| Git.BranchExists | internal/git/git.go:96-112 | a blank name is false without a run; otherwise true exactly when `show-ref` succeeds, false exactly on exit code 1, and any other failure is returned |
| Git.CheckoutBranch | internal/git/git.go:115-137 | a blank name is an error with no run; the current branch is looked up first; the branch one is on gives `already on '<name>'` and no checkout; otherwise the checkout's answer |
| Git.CheckoutOnlyWhenElsewhere | internal/git/git.go:119-132 | any `checkout` run names the trimmed branch, and happens only when that branch is non-blank and not the current one |
| Navigator.New | internal/navigator/navigator.go:23-28 | a navigator exactly when a service is given; otherwise the error `git service is required` |
| Navigator.Collect | internal/navigator/navigator.go:73-98 | the specification of `appendBranches`, one candidate at a time: trim, skip blanks and seen names, ask `BranchExists`, stop on an error or once `limit` names are held; its properties are the `Collect…` lemmas below |
| Navigator.AppendBranches | internal/navigator/navigator.go:73-98 | the loop keeps `seen`, the result and the calls exactly as the recursive specification `Collect` does |
| Navigator.Recent | internal/navigator/navigator.go:31-71 | the specification of `RecentBranches`: the guards, the current branch, the reflog pass seeded with it, and the commit-date pass only while under `limit`; its properties are the `Recent…` lemmas below |
| Navigator.RecentBranches | internal/navigator/navigator.go:31-71 | it equals the specification `Recent`; with no navigator or service it fails with `navigator is not configured`, and with `limit <= 0` it gives an empty result; neither makes a call |
| Navigator.CollectSound | internal/navigator/navigator.go:75-92 | every added name is trimmed, non-empty, confirmed to exist, and neither seen before nor the current branch; names are added once |
| Navigator.CollectOrder | internal/navigator/navigator.go:74-92 | the pass only appends: the earlier names stay in front, the new ones keep the order of the candidates, and `seen` grows only by the added names |
| Navigator.CollectComplete | internal/navigator/navigator.go:74-96 | a pass that stops short of `limit` has added, or had already seen, every candidate that exists |
| Navigator.CollectTakesFirst | internal/navigator/navigator.go:73-97 | a pass adds exactly the first eligible candidates that fit under `limit`. Eligible means trimmed, non-blank, not seen, not met earlier, and existing. This holds also when the pass fills `limit` and stops early. It is stated against the reference `Eligibles`, which has no limit |
| Navigator.CollectPassed | internal/navigator/navigator.go:74-96 | a pass that stops short of `limit` has looked at every candidate: its `seen` is that of the reference |
| Navigator.CollectAsksExists | internal/navigator/navigator.go:83 | a pass calls nothing but `BranchExists` |
| Navigator.CollectStopsAtError | internal/navigator/navigator.go:83-86 | the pass stops at the first failing existence check, with that error |
| Navigator.CollectBounded | internal/navigator/navigator.go:93-95 | a pass started below `limit` never goes past it |
| Navigator.RecentSound | internal/navigator/navigator.go:44-45 | the result has no duplicates, is at most `limit` long, and holds only trimmed, existing names other than the current branch |
| Navigator.RecentOrder | internal/navigator/navigator.go:52-70 | the reflog names come first, in reflog order, and are followed by the commit-date names in their order |
| Navigator.RecentComplete | internal/navigator/navigator.go:56-70 | a result shorter than `limit` holds every eligible name from both sources |
| Navigator.RecentTakesFirst | internal/navigator/navigator.go:31-71 | a successful result is exactly the first `limit` eligible names of the reflog followed by the commit-date list, each kept once. When the commit-date list was not needed, the reflog alone |
| Navigator.RecentAbortsOnError | internal/navigator/navigator.go:39-68 | every failing call ends the run at once with its error and nothing after it |
| Navigator.NoFallbackWhenFull | internal/navigator/navigator.go:56-58 | when the reflog pass fills `limit`, `BranchesByCommitDate` is never called |
| Ui.ThemeByName | internal/ui/ui.go:107-110 | a blank name gives the default theme |
| Ui.ThemeByNameAccepts | internal/ui/ui.go:107-126 | a theme is found exactly when the trimmed, lower-cased name is one of the twelve listed spellings |
| Ui.ThemeByNameNormalized | internal/ui/ui.go:108 | white space and letter case around a name do not change the theme |
| Ui.CanonicalName | internal/ui/ui.go:97-122 | each canonical name resolves to its own palette |
| Ui.AvailableThemeNames | internal/ui/ui.go:100-104 | six names, each of which `ThemeByName` resolves |
| Ui.CanonicalThemesDiffer | internal/ui/ui.go:97-122 | two different canonical names give different palettes |
| Ui.NewWithTheme | internal/ui/ui.go:162-167 | the zero theme is replaced by the default, any other is kept, and the streams and action are kept |
| Ui.HeaderLines | internal/ui/ui.go:295-312 | at most three header lines, and none exactly when both the action name and the description are blank |
| Ui.Rows | internal/ui/ui.go:316-339 | one row per branch, in order, only the cursor row selected |
| Ui.FrameShape | internal/ui/ui.go:285-351 | a frame starts with the clear-screen sequence, then has the header, the title, one row per branch, an empty line and the help line |
| Ui.Frame | internal/ui/ui.go:285-351 | `render` as the text one call writes; its shape is stated by `Ui.FrameShape` and its rows by `Ui.Rows` and `Ui.RowMarks` |
| Ui.RowMarks | internal/ui/ui.go:317-338 | the cursor row starts with the highlight and "> ", every other row with two spaces |
| Ui.RowBadge | internal/ui/ui.go:318-338 | the row of the current branch ends with `(current branch)` and the reset code, and any other row ends with the branch name and the reset code |
| Ui.HelpLineLabel | internal/ui/ui.go:343-347 | a blank enter label reads `select` |
| Ui.Escape | internal/ui/ui.go:243-283 | the cursor stays on the list; with no frame drawn it is unchanged, and a frame means a move of exactly one row |
| Ui.EscapeEffects | internal/ui/ui.go:243-282 | `[` then `A` moves the cursor one row up, to no less than 0. `[` then `B` moves it one row down, to no more than the last row. Either draws a frame exactly when the cursor moved. The end of the stream, a byte other than `[`, or any other direction leaves the cursor and draws nothing. A read error is returned |
| Ui.Keys | internal/ui/ui.go:193-240 | the specification of the `Select` loop from a stream position and a cursor; what each byte does is stated by `Ui.KeyEffects` |
| Ui.KeyEffects | internal/ui/ui.go:193-240 | the end of the stream, Ctrl+C, Ctrl+D, Ctrl+Z, `q` and `Q` quit with no write. `j` moves one row down and `k` one row up, each drawing a frame exactly when the cursor moves. Enter returns the row under the cursor, with `AlreadyOn` and the `already on` line for the current branch, or quits over an empty list. A read error fails. Any other byte but ESC is ignored |
| Ui.SelectSpec | internal/ui/ui.go:170-241 | the specification of `Select`: the three guards in order, then the first frame at row 0 and the loop |
| Ui.Reader.constructor | internal/ui/ui.go:186 | a reader at the start of the stream |
| Ui.Reader.ReadByte | internal/ui/ui.go:194 | the next byte of the stream, or the stream's end, which is not consumed |
| Ui.HandleEscape | internal/ui/ui.go:243-283 | the method leaves the reader, the cursor, the frames and the error exactly as the specification `Escape` says |
| Ui.Select | internal/ui/ui.go:170-241 | the result and the writes are exactly the specification `SelectSpec`: nil UI or missing streams fail before any write, and the first frame is drawn at row 0 |
| Ui.KeysResult | internal/ui/ui.go:193-240 | the loop quits, or returns a listed row's name with `AlreadyOn` set exactly when that row is current; it fails only with the stream's own error |
| Ui.KeysChoosesCursor | internal/ui/ui.go:221-232 | a loop that does not quit returns the branch under the cursor of its last frame (the start row if it drew none), with `AlreadyOn` exactly for the current branch |
| Ui.KeysDrawn | internal/ui/ui.go:205-238 | every frame after the first moves the cursor by one row and keeps it on the list; a message can only be the last write, the `already on '<name>'` line |
| Ui.KeysAnnounces | internal/ui/ui.go:225-231 | the `already on` line is written exactly when the result reports the current branch |
| Ui.EscapeFails | internal/ui/ui.go:248-261 | `handleEscape` fails only with the stream's error, and then draws nothing |
| Ui.SelectOutcome | internal/ui/ui.go:170-241 | something is written exactly when the UI is configured; the first frame is at row 0, followed by one-row moves, and the result is a valid choice |
| Ui.SelectChoosesCursor | internal/ui/ui.go:170-241 | a `Select` that does not quit returns the branch under the cursor of the last frame it drew |
| Ui.MovesWithJAndEnter | internal/ui/ui_test.go:28-53 | `j` and Enter over a current `main` and one other row selects the other row, with two frames drawn |
| Ui.HandlesArrowKeys | internal/ui/ui_test.go:68-89 | down, down, up, Enter over three rows selects row 1, with four frames drawn |
| Ui.QuitKey | internal/ui/ui_test.go:91-114 | `q` quits with no branch after the first frame |
| Ui.CurrentBranchSelected | internal/ui/ui_test.go:116-142 | Enter on the current row returns it with `AlreadyOn` and writes `already on '<name>'` |
| App.PrintIfNotEmpty | internal/app/app.go:200-204 | nothing is written exactly when the message is all white space; otherwise one line, the trimmed message and a newline (the copy at cmd/branch-navigator/main.go:183-187 is the same) |
| App.PrintedIsTrimmed | internal/app/app.go:200-204 | the written text has no surrounding white space, and printing it again writes the same line |
| App.ValidateDeps | internal/app/app.go:130-147 | `validateDeps`; a missing Git client is what it reports first. Which dependency it reports in general is stated by `App.ValidateDepsFirstMissing` |
| App.ValidateDepsFirstMissing | internal/app/app.go:130-147 | it accepts exactly when no dependency is missing, and otherwise names the first missing one in the order Git, Navigator, Terminal, Input, Output, Error |
| App.ConfiguredValid | internal/app/app.go:130-147 | it accepts exactly when all six dependencies are configured |
| App.LineOf | internal/app/app.go:185-186 | the line read is a prefix of the input: up to and including the first newline, or all of it |
| App.ReadFailure | internal/app/app.go:186-189 | the read of the answer fails only when the stream ends in an error before any newline; end of file is not a failure. `App.Confirm` states its use |
| App.IsAffirmative | internal/app/app.go:191-197 | the answer test; `App.AffirmativeAnswers` states which answers pass it |
| App.Confirm | internal/app/app.go:186-189 | the confirmation fails exactly when the read fails with an error other than end of file |
| App.AffirmativeAnswers | internal/app/app.go:191-197 | the answer confirms exactly when, trimmed and lower-cased, it is `y` or `yes` |
| App.AffirmativeNormalized | internal/app/app.go:191-197 | surrounding white space and letter case do not change the answer |
| App.ConfirmAnswers | internal/app/app.go:180-198 | only an affirmative first line confirms; a last line without a newline counts at end of file; empty input and blank lines decline (the copy at cmd/branch-navigator/main.go:224-242 is the same) |
| App.AnswerExamples | internal/app/app_test.go:346-408 | an input of "y" and a newline confirms; "n" and a newline declines |
| App.DeleteSpec | internal/app/app.go:149-178 | the specification of `handleDelete`; its properties are `App.DeleteCalls`, `App.DeletePrompts` and `App.DeleteOutcome` |
| App.HandleDelete | internal/app/app.go:149-178 | the method makes the calls, writes and error of the specification `DeleteSpec` |
| App.DeleteCalls | internal/app/app.go:150-166 | the soft delete comes first; a forced delete follows exactly when the soft one failed as not fully merged and the answer was yes; there are no other calls |
| App.DeletePrompts | internal/app/app.go:157-159 | the confirmation prompt is written exactly when the soft delete failed as not fully merged |
| App.DeleteOutcome | internal/app/app.go:151-177 | success exactly when the last delete succeeded; a declined answer gives `branch deletion aborted`; a read error or any other delete error is returned as it is |
| App.MergeReport | internal/app/app.go:100-101 | the merge's trimmed stdout is always written first when it is not empty |
| App.MergeReports | internal/app/app.go:102-117 | a failed merge exits with 1 and reports the trimmed stderr, adding the error text only when it does not hold that stderr, or the error text alone when there is no stderr; a successful merge exits with 0 and still reports its stderr |
| App.CandidateList | internal/app/app.go:74-78 | the picker's list is `1 + len(branches)` long, the current branch first and marked, then the names in order, unmarked |
| App.Candidates | internal/app/app.go:74-78 | the loop builds exactly that list |
| App.ReportTo | internal/app/app.go:53-60 | the corrected write of a check's message: one line when the Error stream is configured, nothing when it is missing |
| App.ReportToAsWritten | internal/app/app.go:53-60 | the write as the source does it: a missing Error stream gives a panic |
| App.RunSpec | internal/app/app.go:52-128 | the specification of `Run`: the limit check, the dependency check, the navigator, the current branch, the picker, then the action. Its properties are the `Run…` lemmas below |
| App.Dispatch | internal/app/app.go:86-127 | the switch on the action once a branch is chosen; its properties are `App.DispatchQuit` and `App.DispatchCalls` |
| App.Run | internal/app/app.go:52-128 | the method's exit code, writes and calls are those of the specification `RunSpec` |
| App.Act | internal/app/app.go:86-127 | the method does what the specification `Dispatch` does with the chosen branch |
| App.RunChecksLimitFirst | internal/app/app.go:53-56 | a limit of 0 or less is reported, with exit code 2, before the dependencies are checked or called |
| App.RunChecksDependencies | internal/app/app.go:57-60 | a missing dependency gives exit code 1, the first missing one reported, and no call |
| App.RunShowsCandidates | internal/app/app.go:62-80 | the navigator is asked for `limit` names, then the current branch, and the picker is shown the current branch followed by those names |
| App.RunStopsOnFailure | internal/app/app.go:62-84 | a failure of the navigator, of the current-branch lookup or of the picker writes its error, exits with 1, and runs no action |
| App.DispatchQuit | internal/app/app.go:86-88 | quitting, or choosing the branch one is on, exits with 0 with no call and no write |
| App.DispatchCalls | internal/app/app.go:90-127 | checkout and merge make exactly their one call; delete makes the calls of the delete protocol; an unknown action makes none |
| App.RunExitCodes | internal/app/app.go:52-128 | the exit code is 0, 1 or 2, and 2 only for a bad limit or an unknown action |
| App.MissingErrorStream | internal/app/app.go:53-60 | with the Error stream missing, the run exits with 2 for a bad limit and 1 otherwise, without writing |
| App.NilErrorStreamPanics | internal/app/app.go:53-60 | with only the Error stream missing, `Run` as written sends its message to that missing stream |
| App.RunAsWritten | internal/app/app.go:52-128 | `Run` as written; it is `App.RunSpec` whenever the Error stream is configured |
| App.MissingErrorStreamDiverges | internal/app/app.go:53-60 | with the Error stream missing, every run of `Run` as written panics, and the corrected `Run` ends quietly with exit code 2 or 1 |
| Cli.ResolveAction | cmd/branch-navigator/main.go:161-181 | no flag gives checkout, one flag gives its action, and two or more give `only one of -c, -m, or -d may be specified` |
| Cli.PostParse | cmd/branch-navigator/main.go:133-158 | conflicting flags are reported before the limit is checked; a limit of 0 or less gives `limit must be greater than 0`; the limit defaults to 10; `-c`, `-m` or `-d` alone gives its action, and no flag gives checkout |
| Cli.DeleteActionSpec | cmd/branch-navigator/main.go:189-192 | without a client the result is `git client is not configured`, with no call and no write |
| Cli.HandleDeleteAction | cmd/branch-navigator/main.go:189-222 | the method does what `DeleteActionSpec` says: the guard, then the same soft, confirm, force-once protocol as the orchestrator |
| Cli.MainAct | cmd/branch-navigator/main.go:85-123 | the end of `main` once a branch is chosen: nothing on quit or already-on, then the switch on the action, with the delete going through `handleDeleteAction` |
| Cli.NoActionOnQuit | cmd/branch-navigator/main.go:85-87 | quitting, or choosing the branch one is on, ends `main` with no call and no write |
| Cli.MainActsAsRun | cmd/branch-navigator/main.go:89-123 | the switch at the end of `main` does what the orchestrator's switch does |

## Findings

| source | as written | input that shows it | evidently intended | confidence | as-written member | corrected member |
|---|---|---|---|---|---|---|
| internal/app/app.go:53-60 | `Run` prints the limit error, and the error from `validateDeps`, with `fmt.Fprintln(deps.Error, …)`. When `deps.Error` is nil, this calls `Write` on a nil interface, which panics. So the check for a missing error writer (internal/app/app.go:142-143) can never be reported. | `Run(ctx, Options{Action: ActionCheckout, Limit: 5}, Dependencies{Git, Navigator, Terminal, Input and Output set, Error nil})` | return exit code 1 (or 2 for a bad limit) without writing to the missing stream | high; not executed | App.RunAsWritten, with App.MissingErrorStreamDiverges and App.NilErrorStreamPanics | App.MissingErrorStream with App.ReportTo, which `App.RunSpec` and `App.Run` use |

## Left out

- Subprocess execution (`CLI.Run` in internal/git/git.go) is not part of this model. The runner is an argument: a function from the argument list to output or an error with an exit code.
- Raw terminal mode (`enterRawMode`, `golang.org/x/term`) is reduced to an optional error in the UI value. A configured input that is not a terminal has no error. Restoring the terminal is not modelled.
- Write failures are not modelled. Every `fmt.Fprint` to an output stream is taken to succeed, so the error paths after `render` and after the prompt in `confirmBranchDeletion` are not represented.
- Ui.Frame: the ANSI palette values are opaque constants copied from the source; nothing is proved about their text.
- Ui.New, the three-argument wrapper of `NewWithTheme` with the default theme, has no separate member.
- `flag` parsing in `parseArgs` is not part of this model; `Cli.PostParse` starts from the parsed flag values. If both `-n` and `--limit` are given, the later one wins; that rule is not modelled either.
- `main()` wiring (`os.Exit`, `context.Context`, building the default client) is not modelled. Its final switch is `Cli.MainAct`.
- `MergeBranch`, `DeleteBranch`, `git.ErrBranchNotFullyMerged` and the merge and delete result types are not part of this model. They are oracle answers carrying an error kind.
- The `Client` nil-pointer guard (`c == nil || c.runner == nil`) is a single missing-runner case.
- `strings.TrimSpace` and `strings.ToLower` are modelled for ASCII white space and ASCII letters only.
- `bufio.Reader` buffering is not modelled: the confirmation reads its first line from the input text directly.
- `Navigator.CollectComplete` and `Navigator.RecentComplete` hold only for results shorter than `limit`. A result that fills `limit` is pinned down by `Navigator.CollectTakesFirst` and `Navigator.RecentTakesFirst`, which state the exact list kept.
