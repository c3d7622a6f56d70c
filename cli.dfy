/** The command-line glue: choosing the action from the flags, the checks made once the
    flags are parsed, and the delete action with its guard against a missing client. */
module Cli {
  import opened Core
  import App
  import Ui

  const Conflict := "only one of -c, -m, or -d may be specified"
  const DefaultLimit := 10

  /** How many of the three action flags are set. */
  function FlagCount(checkout: bool, merge: bool, deleteBranch: bool): nat
  {
    (if checkout then 1 else 0) + (if merge then 1 else 0) + (if deleteBranch then 1 else 0)
  }

  /** `resolveAction`: checkout when no flag is set, the one flag set, or an error when more
      than one is. */
  method ResolveAction(checkout: bool, merge: bool, deleteBranch: bool) returns (r: Result<App.Action>)
    ensures FlagCount(checkout, merge, deleteBranch) == 0 ==> r == Ok(App.Checkout)
    ensures FlagCount(checkout, merge, deleteBranch) == 1 ==>
      r.Ok? && (r.value == App.Checkout <==> checkout) && (r.value == App.Merge <==> merge)
            && (r.value == App.Delete <==> deleteBranch)
    ensures FlagCount(checkout, merge, deleteBranch) >= 2 ==> r == Fail(Conflict)
  {
    var selected: seq<App.Action> := [];
    if checkout {
      selected := selected + [App.Checkout];
    }
    if merge {
      selected := selected + [App.Merge];
    }
    if deleteBranch {
      selected := selected + [App.Delete];
    }
    assert |selected| == FlagCount(checkout, merge, deleteBranch);
    if |selected| == 0 {
      r := Ok(App.Checkout);
    } else if |selected| == 1 {
      r := Ok(selected[0]);
    } else {
      r := Fail(Conflict);
    }
  }

  /** What the flags said: the three action flags, and the value of `-n`/`--limit` if one
      was given. */
  datatype Flags = Flags(checkout: bool, merge: bool, deleteBranch: bool, limit: Option<int>)

  /** `cliOptions`. */
  datatype CliOptions = CliOptions(action: App.Action, limit: int)

  /** The maximum number of branches, 10 unless given. */
  function LimitOf(f: Flags): int
  {
    if f.limit.Some? then f.limit.value else DefaultLimit
  }

  /** `parseArgs` once the flag set has parsed its arguments: the action is resolved first,
      then the limit is checked. */
  method PostParse(f: Flags) returns (r: Result<CliOptions>)
    ensures FlagCount(f.checkout, f.merge, f.deleteBranch) >= 2 ==> r == Fail(Conflict)
    ensures FlagCount(f.checkout, f.merge, f.deleteBranch) < 2 && LimitOf(f) <= 0 ==> r == Fail(App.LimitError)
    ensures r.Ok? <==> FlagCount(f.checkout, f.merge, f.deleteBranch) < 2 && LimitOf(f) > 0
    ensures r.Ok? ==> r.value.limit == LimitOf(f) && (f.limit.None? ==> r.value.limit == 10)
    ensures r.Ok? && FlagCount(f.checkout, f.merge, f.deleteBranch) == 0 ==> r.value.action == App.Checkout
    ensures r.Ok? && f.checkout ==> r.value.action == App.Checkout
    ensures r.Ok? && f.merge ==> r.value.action == App.Merge
    ensures r.Ok? && f.deleteBranch ==> r.value.action == App.Delete
  {
    var limit := DefaultLimit;
    if f.limit.Some? {
      limit := f.limit.value;
    }
    var act := ResolveAction(f.checkout, f.merge, f.deleteBranch);
    if act.Err? {
      return Err(act.error);
    }
    if limit <= 0 {
      return Fail(App.LimitError);
    }
    return Ok(CliOptions(act.value, limit));
  }

  /** `handleDeleteAction`: without a client it fails at once, before any call; otherwise
      it is the delete protocol of the orchestrator. */
  function DeleteActionSpec(client: Option<App.GitClient>, input: App.Stdin, branch: string): (r: (Option<Error>, App.Effects))
    ensures client.None? ==> r.0 == Some(Error(App.GitMissing, Plain)) && r.1 == App.Quiet
  {
    if client.None? then (Some(Error(App.GitMissing, Plain)), App.Quiet)
    else App.DeleteSpec(client.value, input, branch)
  }

  /** `handleDeleteAction`. */
  method HandleDeleteAction(client: Option<App.GitClient>, input: App.Stdin, branch: string)
    returns (err: Option<Error>, fx: App.Effects)
    ensures (err, fx) == DeleteActionSpec(client, input, branch)
  {
    if client.None? {
      return Some(Error(App.GitMissing, Plain)), App.Quiet;
    }
    err, fx := App.HandleDelete(client.value, input, branch);
  }

  /** The end of `main`, once a branch is chosen: the same switch as the orchestrator's, with
      the delete going through `handleDeleteAction` and the client `main` always creates. */
  function MainAct(action: App.Action, client: App.GitClient, input: App.Stdin, sel: Ui.Selection): App.Ended
  {
    if sel.quit || sel.alreadyOn then App.Ended(0, App.Quiet)
    else if action == App.Delete then
      var (err, fx) := DeleteActionSpec(Some(client), input, sel.branch);
      if err.Some? then App.Ended(1, App.Then(fx, App.Effects([], [App.Line(err.value.message)], [])))
      else App.Ended(0, fx)
    else App.Dispatch(action, client, input, sel)
  }

  /** Quitting, or choosing the branch one is on, ends `main` without a call or a write. */
  lemma NoActionOnQuit(action: App.Action, client: App.GitClient, input: App.Stdin, sel: Ui.Selection)
    requires sel.quit || sel.alreadyOn
    ensures var r := MainAct(action, client, input, sel);
      r.code == 0 && r.fx.calls == [] && r.fx.out == [] && r.fx.err == []
  {
  }

  /** `main` acts as the orchestrator does. */
  lemma MainActsAsRun(action: App.Action, client: App.GitClient, input: App.Stdin, sel: Ui.Selection)
    ensures MainAct(action, client, input, sel) == App.Dispatch(action, client, input, sel)
  {
  }
}
