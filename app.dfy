/** The action orchestrator: validates the options and the dependencies, offers the
    current branch followed by the recent branches in the picker, and carries out the
    chosen action (checkout, merge, or delete with a confirmation step). The Git client,
    the navigator and the terminal are oracles; the Output and Error streams are logs of
    the lines written to them. */
module App {
  import opened Core
  import opened Text
  import Ui

  // ---------------------------------------------------------------------------------------
  // Options and dependencies

  /** Text an `Action` can hold other than the three it names. */
  type OtherAction = name: string | name != "checkout" && name != "merge" && name != "delete" witness ""

  /** `Action`; `Unknown` is any other text the value can hold. */
  datatype Action = Checkout | Merge | Delete | Unknown(name: OtherAction)

  datatype Options = Options(action: Action, limit: int)

  /** `git.MergeResult` and `git.DeleteResult`: what the command wrote. */
  datatype Output = Output(stdout: string, stderr: string)

  /** A client call that returns its output together with its error, if any. */
  datatype Reply = Reply(output: Output, err: Option<Error>)

  /** `GitClient`: the answers of its four methods. `delete(branch, force)` answers
      `DeleteBranch(branch, DeleteOptions{Force: force})`. */
  datatype GitClient = GitClient(
    current: Result<string>,
    checkout: string -> Result<string>,
    merge: string -> Reply,
    delete: (string, bool) -> Reply)

  /** The Input stream: its text, then end of file (`None`) or the error a read fails with. */
  datatype Stdin = Stdin(text: string, end: Option<Error>)

  /** `Dependencies`; `None` and `false` stand for nil. */
  datatype Dependencies = Dependencies(
    git: Option<GitClient>,
    navigator: Option<int -> Result<seq<string>>>,
    terminal: Option<seq<Ui.Branch> -> Result<Ui.Selection>>,
    input: Option<Stdin>,
    output: bool,
    error: bool)

  /** A call into a dependency. */
  datatype Call =
    | RecentBranches(limit: int)
    | CurrentBranch
    | Select(candidates: seq<Ui.Branch>)
    | CheckoutBranch(branch: string)
    | MergeBranch(branch: string)
    | DeleteBranch(branch: string, force: bool)

  /** What a step wrote to Output and to Error, and the calls it made, in order. */
  datatype Effects = Effects(out: seq<string>, err: seq<string>, calls: seq<Call>)

  const Quiet := Effects([], [], [])

  /** One step after the other. */
  function Then(a: Effects, b: Effects): Effects
  {
    Effects(a.out + b.out, a.err + b.err, a.calls + b.calls)
  }

  lemma ThenQuiet(a: Effects)
    ensures Then(a, Quiet) == a && Then(Quiet, a) == a
  {
  }

  /** `fmt.Fprintln(w, text)` writes the text and a newline. */
  function Line(text: string): string
  {
    text + "\n"
  }

  // ---------------------------------------------------------------------------------------
  // printIfNotEmpty

  /** `printIfNotEmpty`: the lines it writes. */
  function PrintIfNotEmpty(message: string): (r: seq<string>)
    ensures r == [] <==> AllIn(message, Whitespace)
    ensures r != [] ==> r == [Line(TrimSpace(message))] && TrimSpace(message) != []
  {
    TrimEmpty(message, Whitespace);
    var trimmed := TrimSpace(message);
    if trimmed != [] then [Line(trimmed)] else []
  }

  /** The line it writes carries no surrounding white space of its own. */
  lemma PrintedIsTrimmed(message: string)
    ensures var r := PrintIfNotEmpty(message);
      r != [] ==> var text := r[0][..|r[0]| - 1];
        r[0] == Line(text) && text != [] && Trimmed(text, Whitespace) && PrintIfNotEmpty(text) == [r[0]]
  {
    var r := PrintIfNotEmpty(message);
    if r != [] {
      var text := TrimSpace(message);
      assert r[0][..|r[0]| - 1] == text;
      TrimOfTrimmed(text, Whitespace);
      assert Trimmed(text, Whitespace);
    }
  }

  // ---------------------------------------------------------------------------------------
  // validateDeps

  const GitMissing := "git client is not configured"
  const NavigatorMissing := "navigator is not configured"
  const TerminalMissing := "terminal UI is not configured"
  const InputMissing := "input reader is not configured"
  const OutputMissing := "output writer is not configured"
  const ErrorMissing := "error writer is not configured"

  /** The dependencies in the order they are checked, and the message for each. */
  function Present(deps: Dependencies): seq<bool>
  {
    [deps.git.Some?, deps.navigator.Some?, deps.terminal.Some?, deps.input.Some?, deps.output, deps.error]
  }

  const Missing: seq<string> := [GitMissing, NavigatorMissing, TerminalMissing, InputMissing, OutputMissing, ErrorMissing]

  /** `validateDeps`. */
  function ValidateDeps(deps: Dependencies): (r: Option<string>)
    ensures deps.git.None? ==> r == Some(GitMissing)
  {
    if deps.git.None? then Some(GitMissing)
    else if deps.navigator.None? then Some(NavigatorMissing)
    else if deps.terminal.None? then Some(TerminalMissing)
    else if deps.input.None? then Some(InputMissing)
    else if !deps.output then Some(OutputMissing)
    else if !deps.error then Some(ErrorMissing)
    else None
  }

  /** `validateDeps` accepts exactly when nothing is missing, and otherwise reports the first
      missing dependency in the checking order. */
  lemma ValidateDepsFirstMissing(deps: Dependencies)
    ensures var r := ValidateDeps(deps);
      && (r.None? <==> forall i :: 0 <= i < 6 ==> Present(deps)[i])
      && (r.Some? ==> exists i :: 0 <= i < 6 && !Present(deps)[i] && r.value == Missing[i]
                                  && forall j :: 0 <= j < i ==> Present(deps)[j])
  {
    var p := Present(deps);
    var r := ValidateDeps(deps);
    var first := if !p[0] then 0 else if !p[1] then 1 else if !p[2] then 2
      else if !p[3] then 3 else if !p[4] then 4 else if !p[5] then 5 else 6;
    assert forall j :: 0 <= j < first ==> p[j];
    if first < 6 {
      assert !p[first] && r.value == Missing[first];
    }
  }

  /** Every dependency is configured. */
  predicate Configured(deps: Dependencies)
  {
    deps.git.Some? && deps.navigator.Some? && deps.terminal.Some? && deps.input.Some? && deps.output && deps.error
  }

  lemma ConfiguredValid(deps: Dependencies)
    ensures ValidateDeps(deps).None? <==> Configured(deps)
  {
  }

  // ---------------------------------------------------------------------------------------
  // confirmBranchDeletion

  const ConfirmPrompt1 := "Branch '"
  const ConfirmPrompt2 := "' is not fully merged. Delete anyway? [y/N]: "

  function Prompt(branch: string): string
  {
    ConfirmPrompt1 + branch + ConfirmPrompt2
  }

  /** What `ReadString('\n')` returns first: the text up to and including the first newline,
      or all of it when there is none. */
  function LineOf(text: string): (line: string)
    ensures HasPrefix(text, line)
    ensures '\n' !in text ==> line == text
    ensures '\n' in text ==> line != [] && line[|line| - 1] == '\n' && '\n' !in line[..|line| - 1]
  {
    if text == [] then []
    else if text[0] == '\n' then "\n"
    else
      var rest := LineOf(text[1..]);
      assert [text[0]] + rest == text[..1 + |rest|];
      assert '\n' in text ==> '\n' in text[1..];
      assert '\n' in text[1..] ==> ([text[0]] + rest)[..|rest|] == [text[0]] + rest[..|rest| - 1];
      [text[0]] + rest
  }

  /** The read fails only when no newline comes before a stream error; end of file is not
      a failure. */
  function ReadFailure(input: Stdin): Option<Error>
  {
    if '\n' in input.text then None else input.end
  }

  /** The affirmative answers, after trimming and lower-casing. */
  predicate IsAffirmative(line: string)
  {
    var trimmed := TrimSpace(line);
    if trimmed == [] then false
    else
      var answer := ToLower(trimmed);
      answer == "y" || answer == "yes"
  }

  /** `confirmBranchDeletion`, once its prompt is written: the answer read from the input. */
  function Confirm(input: Stdin): (r: Result<bool>)
    ensures r.Err? <==> ReadFailure(input).Some?
  {
    var failure := ReadFailure(input);
    if failure.Some? then Err(failure.value) else Ok(IsAffirmative(LineOf(input.text)))
  }

  /** The answer is "y" or "yes" in any letter case, with any surrounding white space. */
  lemma AffirmativeAnswers(line: string)
    ensures IsAffirmative(line) <==> Normalize(line) == "y" || Normalize(line) == "yes"
  {
  }

  /** White space and letter case do not change the answer. */
  lemma AffirmativeNormalized(line: string)
    ensures IsAffirmative(Normalize(line)) == IsAffirmative(line)
  {
    AffirmativeAnswers(line);
    AffirmativeAnswers(Normalize(line));
    NormalizeIdempotent(line);
  }

  /** Only an affirmative first line confirms; a blank line or an input that ends at once
      declines; a last line without a newline counts at end of file. */
  lemma ConfirmAnswers(input: Stdin)
    ensures Confirm(input) == Ok(true) <==> ReadFailure(input).None? && (Normalize(LineOf(input.text)) == "y" || Normalize(LineOf(input.text)) == "yes")
    ensures input.end.None? && '\n' !in input.text ==> Confirm(input) == Ok(IsAffirmative(input.text))
    ensures input.text == [] && input.end.None? ==> Confirm(input) == Ok(false)
    ensures ReadFailure(input).None? && AllIn(LineOf(input.text), Whitespace) ==> Confirm(input) == Ok(false)
  {
    AffirmativeAnswers(LineOf(input.text));
    TrimEmpty(LineOf(input.text), Whitespace);
  }

  // ---------------------------------------------------------------------------------------
  // handleDelete

  const Aborted := "branch deletion aborted"

  /** `handleDelete`: the error it returns, and what it wrote and called. */
  function DeleteSpec(client: GitClient, input: Stdin, branch: string): (Option<Error>, Effects)
  {
    var soft := client.delete(branch, false);
    var first := Effects([], [], [DeleteBranch(branch, false)]);
    if soft.err.None? then
      (None, Then(first, Effects(PrintIfNotEmpty(soft.output.stdout), PrintIfNotEmpty(soft.output.stderr), [])))
    else if soft.err.value.kind == NotFullyMerged then
      var asked := Then(first, Effects([Prompt(branch)], PrintIfNotEmpty(soft.output.stderr), []));
      match Confirm(input)
      case Err(e) => (Some(e), asked)
      case Ok(confirmed) =>
        if !confirmed then (Some(Error(Aborted, Plain)), asked)
        else
          var forced := client.delete(branch, true);
          var again := Then(asked, Effects([], [], [DeleteBranch(branch, true)]));
          if forced.err.Some? then
            (forced.err, Then(again, Effects([], PrintIfNotEmpty(forced.output.stderr), [])))
          else
            (None, Then(again, Effects(PrintIfNotEmpty(forced.output.stdout), PrintIfNotEmpty(forced.output.stderr), [])))
    else
      (soft.err, Then(first, Effects([], PrintIfNotEmpty(soft.output.stderr), [])))
  }

  /** `handleDelete`. */
  method HandleDelete(client: GitClient, input: Stdin, branch: string) returns (err: Option<Error>, fx: Effects)
    ensures (err, fx) == DeleteSpec(client, input, branch)
  {
    var soft := client.delete(branch, false);
    fx := Effects([], [], [DeleteBranch(branch, false)]);
    if soft.err.None? {
      fx := Then(fx, Effects(PrintIfNotEmpty(soft.output.stdout), PrintIfNotEmpty(soft.output.stderr), []));
      return None, fx;
    }
    if soft.err.value.kind == NotFullyMerged {
      fx := Then(fx, Effects([Prompt(branch)], PrintIfNotEmpty(soft.output.stderr), []));
      var answer := Confirm(input);
      if answer.Err? {
        return Some(answer.error), fx;
      }
      if !answer.value {
        return Some(Error(Aborted, Plain)), fx;
      }
      var forced := client.delete(branch, true);
      fx := Then(fx, Effects([], [], [DeleteBranch(branch, true)]));
      if forced.err.Some? {
        fx := Then(fx, Effects([], PrintIfNotEmpty(forced.output.stderr), []));
        return forced.err, fx;
      }
      fx := Then(fx, Effects(PrintIfNotEmpty(forced.output.stdout), PrintIfNotEmpty(forced.output.stderr), []));
      return None, fx;
    }
    fx := Then(fx, Effects([], PrintIfNotEmpty(soft.output.stderr), []));
    return soft.err, fx;
  }

  /** The soft delete comes first; a forced delete follows exactly when the soft one failed
      as not fully merged and the answer was yes, and there is no other call. */
  lemma DeleteCalls(client: GitClient, input: Stdin, branch: string)
    ensures var (_, fx) := DeleteSpec(client, input, branch);
      var soft := client.delete(branch, false);
      var forces := soft.err.Some? && soft.err.value.kind == NotFullyMerged && Confirm(input) == Ok(true);
      fx.calls == [DeleteBranch(branch, false)] + (if forces then [DeleteBranch(branch, true)] else [])
  {
    var soft := client.delete(branch, false);
    var first := [DeleteBranch(branch, false)];
    if soft.err.Some? && soft.err.value.kind == NotFullyMerged && Confirm(input) == Ok(true) {
      assert DeleteSpec(client, input, branch).1.calls == first + [] + [DeleteBranch(branch, true)] + [];
    } else {
      assert DeleteSpec(client, input, branch).1.calls == first + [];
    }
  }

  /** The prompt is written exactly when the soft delete failed as not fully merged. */
  lemma DeletePrompts(client: GitClient, input: Stdin, branch: string)
    ensures var (_, fx) := DeleteSpec(client, input, branch);
      var soft := client.delete(branch, false);
      Prompt(branch) in fx.out <==> soft.err.Some? && soft.err.value.kind == NotFullyMerged
  {
    var (_, fx) := DeleteSpec(client, input, branch);
    var soft := client.delete(branch, false);
    if !(soft.err.Some? && soft.err.value.kind == NotFullyMerged) {
      if soft.err.None? {
        PrintNotPrompt(soft.output.stdout, branch);
      }
      assert fx.out == [] || fx.out == PrintIfNotEmpty(soft.output.stdout);
    }
  }

  /** A printed line ends with a newline; the prompt does not. */
  lemma PrintNotPrompt(message: string, branch: string)
    ensures Prompt(branch) !in PrintIfNotEmpty(message)
  {
    var p := Prompt(branch);
    assert p[|p| - 1] == ' ';
  }

  /** How `handleDelete` ends: success exactly when the last delete it ran succeeded; a
      declined answer aborts; a failed read or a delete error is returned as it is. */
  lemma DeleteOutcome(client: GitClient, input: Stdin, branch: string)
    ensures var (err, _) := DeleteSpec(client, input, branch);
      var soft := client.delete(branch, false);
      var unmerged := soft.err.Some? && soft.err.value.kind == NotFullyMerged;
      && (soft.err.None? ==> err.None?)
      && (soft.err.Some? && !unmerged ==> err == soft.err)
      && (unmerged && Confirm(input).Err? ==> err == Some(Confirm(input).error))
      && (unmerged && Confirm(input) == Ok(false) ==> err == Some(Error(Aborted, Plain)))
      && (unmerged && Confirm(input) == Ok(true) ==> err == client.delete(branch, true).err)
  {
  }

  // ---------------------------------------------------------------------------------------
  // Merge output

  /** What the merge branch of `Run` writes, and its exit code. */
  datatype Report = Report(out: seq<string>, err: seq<string>, code: int)

  function MergeReport(reply: Reply): (r: Report)
    ensures r.out == PrintIfNotEmpty(reply.output.stdout)
  {
    var out := PrintIfNotEmpty(reply.output.stdout);
    var stderr := TrimSpace(reply.output.stderr);
    if reply.err.Some? then
      var text := reply.err.value.message;
      if stderr != [] then
        Report(out, [Line(stderr)] + (if !Contains(text, stderr) then [Line(text)] else []), 1)
      else
        Report(out, [Line(text)], 1)
    else
      Report(out, if stderr != [] then [Line(stderr)] else [], 0)
  }

  /** A failed merge exits with 1 and reports the trimmed stderr when there is one, then its
      own error text exactly when that text does not already hold the stderr; with no stderr
      it reports the error text alone. A successful merge exits with 0 and still passes the
      stderr on. */
  lemma MergeReports(reply: Reply)
    ensures var r := MergeReport(reply);
      var stderr := TrimSpace(reply.output.stderr);
      && (reply.err.Some? ==>
            var text := reply.err.value.message;
            && r.code == 1
            && (stderr == [] ==> r.err == [Line(text)])
            && (stderr != [] ==> && 1 <= |r.err| <= 2 && r.err[0] == Line(stderr)
                                 && (|r.err| == 2 <==> !Contains(text, stderr))
                                 && (|r.err| == 2 ==> r.err[1] == Line(text))))
      && (reply.err.None? ==> r.code == 0 && r.err == PrintIfNotEmpty(reply.output.stderr))
  {
  }

  // ---------------------------------------------------------------------------------------
  // Run

  const LimitError := "limit must be greater than 0"

  /** A line written to the Error stream only when the stream is configured. */
  function ReportTo(configured: bool, text: string): (r: seq<string>)
    ensures configured ==> r == [Line(text)]
    ensures !configured ==> r == []
  {
    if configured then [Line(text)] else []
  }

  /** The same line as `Run` writes it: to a nil writer, `fmt.Fprintln` panics (`None`). */
  function ReportToAsWritten(configured: bool, text: string): (r: Option<seq<string>>)
    ensures r.None? <==> !configured
  {
    if configured then Some([Line(text)]) else None
  }

  /** The list shown in the picker: the current branch, marked, then the navigator's names. */
  function CandidateList(current: string, branches: seq<string>): (c: seq<Ui.Branch>)
    ensures |c| == 1 + |branches|
    ensures c[0] == Ui.Branch(current, true)
    ensures forall i :: 0 <= i < |branches| ==> c[i + 1] == Ui.Branch(branches[i], false)
  {
    [Ui.Branch(current, true)] + seq(|branches|, i requires 0 <= i < |branches| => Ui.Branch(branches[i], false))
  }

  /** The candidate list, built by appending. */
  method Candidates(current: string, branches: seq<string>) returns (c: seq<Ui.Branch>)
    ensures c == CandidateList(current, branches)
  {
    c := [Ui.Branch(current, true)];
    var i := 0;
    while i < |branches|
      invariant 0 <= i <= |branches|
      invariant |c| == 1 + i && c[0] == Ui.Branch(current, true)
      invariant forall k :: 0 <= k < i ==> c[k + 1] == Ui.Branch(branches[k], false)
    {
      c := c + [Ui.Branch(branches[i], false)];
      i := i + 1;
    }
  }

  /** How `Run` ends: the exit code, and what it wrote and called. */
  datatype Ended = Ended(code: int, fx: Effects)

  /** The action once a branch is chosen, with every dependency configured. */
  function Dispatch(action: Action, client: GitClient, input: Stdin, sel: Ui.Selection): Ended
  {
    if sel.quit || sel.alreadyOn then Ended(0, Quiet)
    else match action
      case Checkout =>
        var call := Effects([], [], [CheckoutBranch(sel.branch)]);
        (match client.checkout(sel.branch)
         case Err(e) => Ended(1, Then(call, Effects([], [Line(e.message)], [])))
         case Ok(message) => Ended(0, Then(call, Effects(PrintIfNotEmpty(message), [], []))))
      case Merge =>
        var r := MergeReport(client.merge(sel.branch));
        Ended(r.code, Effects(r.out, r.err, [MergeBranch(sel.branch)]))
      case Delete =>
        var (err, fx) := DeleteSpec(client, input, sel.branch);
        if err.Some? then Ended(1, Then(fx, Effects([], [Line(err.value.message)], [])))
        else Ended(0, fx)
      case Unknown(name) => Ended(2, Effects([], [name + " action is not implemented yet\n"], []))
  }

  /** `Run`. */
  function RunSpec(opts: Options, deps: Dependencies): Ended
  {
    if opts.limit <= 0 then Ended(2, Effects([], ReportTo(deps.error, LimitError), []))
    else if ValidateDeps(deps).Some? then Ended(1, Effects([], ReportTo(deps.error, ValidateDeps(deps).value), []))
    else
      var client := deps.git.value;
      var asked := Effects([], [], [RecentBranches(opts.limit)]);
      match deps.navigator.value(opts.limit)
      case Err(e) => Ended(1, Then(asked, Effects([], [Line(e.message)], [])))
      case Ok(branches) =>
        var found := Then(asked, Effects([], [], [CurrentBranch]));
        match client.current
        case Err(e) => Ended(1, Then(found, Effects([], [Line(e.message)], [])))
        case Ok(current) =>
          var candidates := CandidateList(current, branches);
          var shown := Then(found, Effects([], [], [Select(candidates)]));
          match deps.terminal.value(candidates)
          case Err(e) => Ended(1, Then(shown, Effects([], [Line(e.message)], [])))
          case Ok(sel) =>
            var done := Dispatch(opts.action, client, deps.input.value, sel);
            Ended(done.code, Then(shown, done.fx))
  }

  /** `Run`. */
  method Run(opts: Options, deps: Dependencies) returns (code: int, fx: Effects)
    ensures Ended(code, fx) == RunSpec(opts, deps)
  {
    if opts.limit <= 0 {
      return 2, Effects([], ReportTo(deps.error, LimitError), []);
    }
    var invalid := ValidateDeps(deps);
    if invalid.Some? {
      return 1, Effects([], ReportTo(deps.error, invalid.value), []);
    }
    ConfiguredValid(deps);
    var client := deps.git.value;
    fx := Effects([], [], [RecentBranches(opts.limit)]);
    var branches := deps.navigator.value(opts.limit);
    if branches.Err? {
      return 1, Then(fx, Effects([], [Line(branches.error.message)], []));
    }
    fx := Then(fx, Effects([], [], [CurrentBranch]));
    var current := client.current;
    if current.Err? {
      return 1, Then(fx, Effects([], [Line(current.error.message)], []));
    }
    var candidates := Candidates(current.value, branches.value);
    fx := Then(fx, Effects([], [], [Select(candidates)]));
    var result := deps.terminal.value(candidates);
    if result.Err? {
      return 1, Then(fx, Effects([], [Line(result.error.message)], []));
    }
    var code2, acted := Act(opts.action, client, deps.input.value, result.value);
    return code2, Then(fx, acted);
  }

  /** The `switch` of `Run` on the chosen branch. */
  method Act(action: Action, client: GitClient, input: Stdin, sel: Ui.Selection) returns (code: int, fx: Effects)
    ensures Ended(code, fx) == Dispatch(action, client, input, sel)
  {
    if sel.quit || sel.alreadyOn {
      return 0, Quiet;
    }
    match action {
      case Checkout =>
        fx := Effects([], [], [CheckoutBranch(sel.branch)]);
        var message := client.checkout(sel.branch);
        if message.Err? {
          return 1, Then(fx, Effects([], [Line(message.error.message)], []));
        }
        return 0, Then(fx, Effects(PrintIfNotEmpty(message.value), [], []));
      case Merge =>
        var r := MergeReport(client.merge(sel.branch));
        return r.code, Effects(r.out, r.err, [MergeBranch(sel.branch)]);
      case Delete =>
        var err, deleted := HandleDelete(client, input, sel.branch);
        if err.Some? {
          return 1, Then(deleted, Effects([], [Line(err.value.message)], []));
        }
        return 0, deleted;
      case Unknown(name) =>
        return 2, Effects([], [name + " action is not implemented yet\n"], []);
    }
  }

  // ---------------------------------------------------------------------------------------
  // What Run promises

  /** An invalid limit is reported before anything else is looked at, with exit code 2. */
  lemma RunChecksLimitFirst(opts: Options, deps: Dependencies)
    requires opts.limit <= 0
    ensures RunSpec(opts, deps) == Ended(2, Effects([], ReportTo(deps.error, LimitError), []))
  {
  }

  /** A missing dependency is reported, the first one in the checking order, with exit code 1
      and before any call. */
  lemma RunChecksDependencies(opts: Options, deps: Dependencies)
    requires opts.limit > 0 && !Configured(deps)
    ensures var r := RunSpec(opts, deps);
      && r.code == 1 && r.fx.calls == [] && r.fx.out == []
      && ValidateDeps(deps).Some? && r.fx.err == ReportTo(deps.error, ValidateDeps(deps).value)
  {
    ConfiguredValid(deps);
  }

  /** With everything configured, the navigator is asked for `limit` names, then the current
      branch, and the picker is shown the current branch followed by those names. */
  lemma RunShowsCandidates(opts: Options, deps: Dependencies, branches: seq<string>, current: string)
    requires opts.limit > 0 && Configured(deps)
    requires deps.navigator.value(opts.limit) == Ok(branches) && deps.git.value.current == Ok(current)
    ensures var r := RunSpec(opts, deps);
      && |r.fx.calls| >= 3
      && r.fx.calls[..3] == [RecentBranches(opts.limit), CurrentBranch, Select(CandidateList(current, branches))]
  {
    ConfiguredValid(deps);
  }

  /** A failing navigator, current-branch lookup or picker ends the run with exit code 1, its
      error on the Error stream and no action. */
  lemma RunStopsOnFailure(opts: Options, deps: Dependencies)
    requires opts.limit > 0 && Configured(deps)
    ensures var r := RunSpec(opts, deps);
      var limit := opts.limit;
      var client := deps.git.value;
      && (deps.navigator.value(limit).Err? ==>
            r == Ended(1, Effects([], [Line(deps.navigator.value(limit).error.message)], [RecentBranches(limit)])))
      && (deps.navigator.value(limit).Ok? && client.current.Err? ==>
            r == Ended(1, Effects([], [Line(client.current.error.message)], [RecentBranches(limit), CurrentBranch])))
      && (deps.navigator.value(limit).Ok? && client.current.Ok? ==>
            var candidates := CandidateList(client.current.value, deps.navigator.value(limit).value);
            deps.terminal.value(candidates).Err? ==>
              r == Ended(1, Effects([], [Line(deps.terminal.value(candidates).error.message)],
                                   [RecentBranches(limit), CurrentBranch, Select(candidates)])))
  {
    ConfiguredValid(deps);
  }

  /** A "y" answer confirms; an "n" answer declines. */
  lemma AnswerExamples(yes: Stdin, no: Stdin)
    requires yes.text == "y\n" && no.text == "n\n"
    ensures Confirm(yes) == Ok(true) && Confirm(no) == Ok(false)
  {
    AnswerLine(yes.text, 'y');
    AnswerLine(no.text, 'n');
  }

  /** A one-letter answer on its own line reads as that letter. */
  lemma AnswerLine(text: string, c: char)
    requires text == [c, '\n'] && 'a' <= c <= 'z'
    ensures ReadFailure(Stdin(text, None)).None? && LineOf(text) == text && Normalize(text) == [c]
  {
    assert text == [] + [c] + ['\n'];
    assert LineOf(text[1..]) == ['\n'];
    TrimPadding([], [c], ['\n'], Whitespace);
  }

  /** Quitting, or choosing the branch one is already on, ends the run with 0 and no action. */
  lemma DispatchQuit(action: Action, client: GitClient, input: Stdin, sel: Ui.Selection)
    requires sel.quit || sel.alreadyOn
    ensures Dispatch(action, client, input, sel) == Ended(0, Quiet)
  {
  }

  /** The action runs exactly the client call it names. */
  lemma DispatchCalls(action: Action, client: GitClient, input: Stdin, sel: Ui.Selection)
    requires !sel.quit && !sel.alreadyOn
    ensures var calls := Dispatch(action, client, input, sel).fx.calls;
      && (action == Checkout ==> calls == [CheckoutBranch(sel.branch)])
      && (action == Merge ==> calls == [MergeBranch(sel.branch)])
      && (action == Delete ==> calls == DeleteSpec(client, input, sel.branch).1.calls)
      && (action.Unknown? ==> calls == [])
  {
  }

  /** The exit code is 0, 1 or 2; 2 means an invalid limit or an action that does not
      exist. */
  lemma RunExitCodes(opts: Options, deps: Dependencies)
    ensures var r := RunSpec(opts, deps);
      && (r.code == 0 || r.code == 1 || r.code == 2)
      && (r.code == 2 ==> opts.limit <= 0 || opts.action.Unknown?)
  {
    var r := RunSpec(opts, deps);
    if opts.limit > 0 && ValidateDeps(deps).None? {
      ConfiguredValid(deps);
      var client := deps.git.value;
      var branches := deps.navigator.value(opts.limit);
      if branches.Ok? && client.current.Ok? {
        var candidates := CandidateList(client.current.value, branches.value);
        var result := deps.terminal.value(candidates);
        if result.Ok? && opts.action == Merge {
          MergeReports(client.merge(result.value.branch));
        }
      }
    }
  }

  /** With the Error stream missing, the run still ends with the code of its check, and
      writes nothing. */
  lemma MissingErrorStream(opts: Options, deps: Dependencies)
    requires !deps.error
    ensures RunSpec(opts, deps) == Ended(if opts.limit <= 0 then 2 else 1, Quiet)
  {
  }

  /** How `Run` as written ends: like `Run`, or in a panic when it writes to a nil Error
      stream. */
  datatype RunEnd = Finished(code: int, fx: Effects) | Panicked

  /** `Run` as written: the limit message and the missing-dependency message go to
      `deps.Error` whether or not it is set. */
  function RunAsWritten(opts: Options, deps: Dependencies): (r: RunEnd)
    ensures deps.error ==> r == Finished(RunSpec(opts, deps).code, RunSpec(opts, deps).fx)
  {
    if opts.limit <= 0 then
      match ReportToAsWritten(deps.error, LimitError)
      case None => Panicked
      case Some(err) => Finished(2, Effects([], err, []))
    else if ValidateDeps(deps).Some? then
      match ReportToAsWritten(deps.error, ValidateDeps(deps).value)
      case None => Panicked
      case Some(err) => Finished(1, Effects([], err, []))
    else Finished(RunSpec(opts, deps).code, RunSpec(opts, deps).fx)
  }

  /** The Error stream is the last dependency checked, so under `Run` as written its missing
      message goes to the missing stream itself, and the same holds for the limit message. */
  lemma NilErrorStreamPanics(opts: Options, deps: Dependencies)
    requires deps.git.Some? && deps.navigator.Some? && deps.terminal.Some? && deps.input.Some? && deps.output
    requires !deps.error
    ensures opts.limit > 0 ==> ValidateDeps(deps) == Some(ErrorMissing)
    ensures opts.limit > 0 ==> ReportToAsWritten(deps.error, ValidateDeps(deps).value).None?
    ensures opts.limit <= 0 ==> ReportToAsWritten(deps.error, LimitError).None?
  {
  }

  /** With the Error stream missing, every run of `Run` as written panics, where the corrected
      `Run` ends quietly with its exit code. */
  lemma {:induction false} MissingErrorStreamDiverges(opts: Options, deps: Dependencies)
    requires !deps.error
    ensures RunAsWritten(opts, deps) == Panicked
    ensures RunSpec(opts, deps) == Ended(if opts.limit <= 0 then 2 else 1, Quiet)
  {
    assert opts.limit > 0 ==> ValidateDeps(deps).Some? by {
      if opts.limit > 0 {
        ValidateDepsFirstMissing(deps);
      }
    }
  }
}
