/** The Git client of internal/git/git.go: reflog subject parsing, line splitting, and the
    client operations with their guards. The subprocess runner is an oracle: a function from
    an argument list to either the trimmed standard output or an error, exit-code failures
    carrying `Kind.Exit(code)`. */
module Git {
  import opened Core
  import opened Text

  type Args = seq<string>

  /** `Runner.Run`: the argument list given to git, and what the run returned. */
  type Runner = Args -> Result<string>

  /** A `*Client`. `runner == None` stands for a nil client or a client without a runner,
      which every operation treats alike. */
  datatype Client = Client(runner: Option<Runner>)

  /** The value an operation returns, and the argument lists it passed to the runner, in order. */
  datatype Invocation<T> = Invocation(result: Result<T>, runs: seq<Args>)

  const NotConfigured := "git client is not configured"
  const BranchRequired := "branch name is required"

  const MoveFrom := "checkout: moving from "
  const MoveTo := "checkout: moving to "
  const Switching := "checkout: switching to "
  const Separator := " to "
  const Quotes: set<char> := {'\'', '"'}

  const RevParse: Args := ["rev-parse", "--abbrev-ref", "HEAD"]
  const Reflog: Args := ["reflog", "--format=%gs"]
  const ForEachRef: Args := ["for-each-ref", "--format=%(refname:short)", "--sort=-committerdate", "refs/heads"]

  function ShowRef(branch: string): Args
  {
    ["show-ref", "--verify", "--quiet", "refs/heads/" + branch]
  }

  function AlreadyOn(branch: string): string
  {
    "already on '" + branch + "'"
  }

  // ---------------------------------------------------------------------------------------
  // Reflog subjects

  /** The destination text trimmed of white space and then of quote characters; `None` when
      nothing is left. */
  function Destination(s: string): (r: Option<string>)
    ensures r.Some? ==> r.value != [] && Trimmed(r.value, Quotes)
  {
    var b := Trim(TrimSpace(s), Quotes);
    if b == [] then None else Some(b)
  }

  /** `extractBranchFromSubject`: `None` stands for the Go pair `("", false)`. */
  function ExtractBranchFromSubject(subject: string): (r: Option<string>)
    ensures subject == [] ==> r == None
    ensures r.Some? ==> r.value != []
    ensures r.Some? ==> HasPrefix(subject, MoveFrom) || HasPrefix(subject, MoveTo) || HasPrefix(subject, Switching)
  {
    if subject == [] then None
    else if HasPrefix(subject, MoveFrom) then
      var rest := subject[|MoveFrom|..];
      var idx := LastIndex(rest, Separator);
      if idx == -1 then None else Destination(rest[idx + |Separator|..])
    else if HasPrefix(subject, MoveTo) then Destination(subject[|MoveTo|..])
    else if HasPrefix(subject, Switching) then Destination(subject[|Switching|..])
    else None
  }

  /** A name as git writes it into a reflog subject: not empty, no white space, and not
      starting or ending with a quote character. */
  predicate PlainName(name: string)
  {
    && name != []
    && (forall k :: 0 <= k < |name| ==> name[k] !in Whitespace)
    && Trimmed(name, Quotes)
  }

  lemma DestinationOfPlain(pre: string, name: string, post: string)
    requires PlainName(name)
    requires AllIn(pre, Quotes) && AllIn(post, Quotes)
    requires pre == [] || pre[0] !in Whitespace
    requires post == [] || post[|post| - 1] !in Whitespace
    ensures Destination(pre + name + post) == Some(name)
  {
    var s := pre + name + post;
    assert s[0] !in Whitespace && s[|s| - 1] !in Whitespace;
    TrimOfTrimmed(s, Whitespace);
    TrimPadding(pre, name, post, Quotes);
  }

  /** In `<from> to <to>` with no blank in `<to>`, the last " to " is the one right after
      `<from>`. */
  lemma LastSeparator(from: string, to: string)
    requires forall k :: 0 <= k < |to| ==> to[k] != ' '
    ensures LastIndex(from + Separator + to, Separator) == |from|
  {
    var rest := from + Separator + to;
    assert OccursAt(rest, Separator, |from|) by {
      assert rest[|from|..|from| + 4] == Separator;
    }
    forall j | |from| < j
      ensures !OccursAt(rest, Separator, j)
    {
      if j + 4 <= |rest| {
        assert rest[j + 3] == to[j - |from| - 1];
      }
    }
  }

  /** `checkout: moving from <from> to <to>` yields `<to>`, whatever `<from>` is: the
      destination is found by the LAST " to ", and a plain name holds no space. */
  lemma MovingFromRoundTrip(from: string, to: string)
    requires PlainName(to)
    ensures ExtractBranchFromSubject(MoveFrom + from + Separator + to) == Some(to)
  {
    var rest := from + Separator + to;
    var subject := MoveFrom + rest;
    assert MoveFrom + from + Separator + to == subject;
    assert subject[..|MoveFrom|] == MoveFrom;
    assert subject[|MoveFrom|..] == rest;
    LastSeparator(from, to);
    assert rest[|from| + |Separator|..] == to;
    DestinationOfPlain([], to, []);
    assert [] + to + [] == to;
  }

  /** `checkout: moving to <to>` yields `<to>`. */
  lemma MovingToRoundTrip(to: string)
    requires PlainName(to)
    ensures ExtractBranchFromSubject(MoveTo + to) == Some(to)
  {
    var subject := MoveTo + to;
    assert subject[..|MoveTo|] == MoveTo;
    assert !HasPrefix(subject, MoveFrom) by {
      assert subject[17] == 't' && MoveFrom[17] == 'f';
    }
    assert subject[|MoveTo|..] == to;
    DestinationOfPlain([], to, []);
    assert [] + to + [] == to;
  }

  /** `checkout: switching to '<to>'` yields `<to>` without its quotes. */
  lemma SwitchingRoundTrip(to: string)
    requires PlainName(to)
    ensures ExtractBranchFromSubject(Switching + "'" + to + "'") == Some(to)
  {
    var subject := Switching + "'" + to + "'";
    assert subject[..|Switching|] == Switching;
    assert !HasPrefix(subject, MoveFrom) && !HasPrefix(subject, MoveTo) by {
      assert subject[10] == 's' && MoveFrom[10] == 'm' && MoveTo[10] == 'm';
    }
    assert subject[|Switching|..] == "'" + to + "'";
    DestinationOfPlain("'", to, "'");
  }

  /** A `moving from` subject without any " to " yields no branch. */
  lemma MovingFromWithoutDestination(rest: string)
    requires forall i :: !OccursAt(rest, Separator, i)
    ensures ExtractBranchFromSubject(MoveFrom + rest) == None
  {
    var subject := MoveFrom + rest;
    assert subject[..|MoveFrom|] == MoveFrom;
    assert subject[|MoveFrom|..] == rest;
  }

  // ---------------------------------------------------------------------------------------
  // Line splitting

  /** A trimmed line as a list of zero (blank) or one line. */
  function KeepLine(t: string): seq<string>
  {
    if t == [] then [] else [t]
  }

  /** The trimmed, non-blank lines of `lines`, in order. */
  function KeepNonBlank(lines: seq<string>): (r: seq<string>)
    ensures |r| <= |lines|
    ensures forall i :: 0 <= i < |r| ==> r[i] != [] && Trimmed(r[i], Whitespace)
  {
    if lines == [] then [] else KeepLine(TrimSpace(lines[0])) + KeepNonBlank(lines[1..])
  }

  /** Filtering distributes over concatenation: blocks of lines are filtered block by block. */
  lemma {:induction false} KeepNonBlankAppend(a: seq<string>, b: seq<string>)
    ensures KeepNonBlank(a + b) == KeepNonBlank(a) + KeepNonBlank(b)
  {
    if a == [] {
      assert a + b == b;
    } else {
      assert (a + b)[0] == a[0];
      assert (a + b)[1..] == a[1..] + b;
      KeepNonBlankAppend(a[1..], b);
    }
  }

  /** What `splitAndFilter(s)` returns. */
  function NonBlankLines(s: string): seq<string>
  {
    KeepNonBlank(Split(TrimSpace(s), '\n'))
  }

  lemma {:induction false} TrimLeavesOut(s: string, cut: set<char>, c: char)
    requires c !in s
    ensures c !in Trim(s, cut)
  {
    var l := TrimLeft(s, cut);
    TrimLeftIsSuffix(s, cut);
    assert forall k :: 0 <= k < |l| ==> l[k] == s[|s| - |l| + k];
    TrimRightIsPrefix(l, cut);
    var r := TrimRight(l, cut);
    assert forall k :: 0 <= k < |r| ==> r[k] == l[k];
  }

  lemma {:induction false} KeepNonBlankLeavesOut(lines: seq<string>, c: char)
    requires forall i :: 0 <= i < |lines| ==> c !in lines[i]
    ensures forall i :: 0 <= i < |KeepNonBlank(lines)| ==> c !in KeepNonBlank(lines)[i]
  {
    if lines != [] {
      TrimLeavesOut(lines[0], Whitespace, c);
      KeepNonBlankLeavesOut(lines[1..], c);
    }
  }

  /** `splitAndFilter`: the lines of `s`, each trimmed, blank ones dropped, order kept. */
  method SplitAndFilter(s: string) returns (out: seq<string>)
    ensures out == NonBlankLines(s)
    ensures forall i :: 0 <= i < |out| ==> out[i] != [] && Trimmed(out[i], Whitespace) && '\n' !in out[i]
  {
    var raw := Split(TrimSpace(s), '\n');
    KeepNonBlankLeavesOut(raw, '\n');
    out := [];
    var i := 0;
    while i < |raw|
      invariant 0 <= i <= |raw|
      invariant out == KeepNonBlank(raw[..i])
    {
      var line := TrimSpace(raw[i]);
      assert raw[..i + 1] == raw[..i] + [raw[i]];
      KeepNonBlankAppend(raw[..i], [raw[i]]);
      assert KeepNonBlank([raw[i]]) == KeepLine(line) by {
        assert [raw[i]][1..] == [];
      }
      if line != [] {
        out := out + [line];
      }
      i := i + 1;
    }
    assert raw[..i] == raw;
  }

  /** The branch a subject line names, as a list of zero or one branch. */
  function ParsedLine(subject: string): seq<string>
  {
    match ExtractBranchFromSubject(subject)
    case Some(b) => [b]
    case None => []
  }

  /** The branches named by the successfully parsed subjects among `lines`, in order. */
  function ExtractEach(lines: seq<string>): (r: seq<string>)
    ensures |r| <= |lines|
    ensures forall i :: 0 <= i < |r| ==> r[i] != []
  {
    if lines == [] then [] else ParsedLine(lines[0]) + ExtractEach(lines[1..])
  }

  /** Parsing distributes over the reflog's lines: output that comes block by block is
      parsed block by block. */
  lemma {:induction false} ExtractEachAppend(a: seq<string>, b: seq<string>)
    ensures ExtractEach(a + b) == ExtractEach(a) + ExtractEach(b)
  {
    if a == [] {
      assert a + b == b;
    } else {
      assert (a + b)[0] == a[0];
      assert (a + b)[1..] == a[1..] + b;
      ExtractEachAppend(a[1..], b);
    }
  }

  lemma ExtractEachSnoc(lines: seq<string>, i: int)
    requires 0 <= i < |lines|
    ensures ExtractEach(lines[..i + 1]) == ExtractEach(lines[..i]) + ParsedLine(lines[i])
  {
    assert lines[..i + 1] == lines[..i] + [lines[i]];
    ExtractEachAppend(lines[..i], [lines[i]]);
    assert [lines[i]][1..] == [];
  }

  /** What `parseReflogSubjects(output)` returns. */
  function ReflogBranches(output: string): seq<string>
  {
    ExtractEach(NonBlankLines(output))
  }

  /** `parseReflogSubjects`: the branch of every subject line that parses, in order. */
  method ParseReflogSubjects(output: string) returns (branches: seq<string>)
    ensures branches == ReflogBranches(output)
    ensures |branches| <= |NonBlankLines(output)|
    ensures forall i :: 0 <= i < |branches| ==> branches[i] != []
  {
    var lines := SplitAndFilter(output);
    branches := [];
    var i := 0;
    while i < |lines|
      invariant 0 <= i <= |lines|
      invariant branches == ExtractEach(lines[..i])
    {
      ExtractEachSnoc(lines, i);
      var parsed := ExtractBranchFromSubject(lines[i]);
      if parsed.Some? {
        branches := branches + [parsed.value];
      }
      i := i + 1;
    }
    assert lines[..i] == lines;
  }

  // ---------------------------------------------------------------------------------------
  // Client operations

  /** `CurrentBranch`: one `rev-parse --abbrev-ref HEAD` run, its output or its error. */
  function CurrentBranch(c: Client): (inv: Invocation<string>)
    ensures c.runner.None? ==> inv == Invocation(Fail(NotConfigured), [])
    ensures c.runner.Some? ==> inv.runs == [RevParse] && inv.result == c.runner.value(RevParse)
  {
    match c.runner
    case None => Invocation(Fail(NotConfigured), [])
    case Some(run) => Invocation(run(RevParse), [RevParse])
  }

  /** `ReflogBranchMoves`: one `reflog --format=%gs` run whose output is parsed into branches. */
  function ReflogBranchMoves(c: Client): (inv: Invocation<seq<string>>)
    ensures c.runner.None? ==> inv == Invocation(Fail(NotConfigured), [])
    ensures c.runner.Some? ==> inv.runs == [Reflog]
    ensures c.runner.Some? ==> match c.runner.value(Reflog)
                               case Ok(out) => inv.result == Ok(ReflogBranches(out))
                               case Err(e) => inv.result == Err(e)
  {
    match c.runner
    case None => Invocation(Fail(NotConfigured), [])
    case Some(run) =>
      match run(Reflog)
      case Ok(out) => Invocation(Ok(ReflogBranches(out)), [Reflog])
      case Err(e) => Invocation(Err(e), [Reflog])
  }

  /** `BranchesByCommitDate`: one `for-each-ref` run over refs/heads, split into lines. */
  function BranchesByCommitDate(c: Client): (inv: Invocation<seq<string>>)
    ensures c.runner.None? ==> inv == Invocation(Fail(NotConfigured), [])
    ensures c.runner.Some? ==> inv.runs == [ForEachRef]
    ensures c.runner.Some? ==> match c.runner.value(ForEachRef)
                               case Ok(out) => inv.result == Ok(NonBlankLines(out))
                               case Err(e) => inv.result == Err(e)
  {
    match c.runner
    case None => Invocation(Fail(NotConfigured), [])
    case Some(run) =>
      match run(ForEachRef)
      case Ok(out) => Invocation(Ok(NonBlankLines(out)), [ForEachRef])
      case Err(e) => Invocation(Err(e), [ForEachRef])
  }

  /** `BranchExists`: a blank name does not exist and never reaches the runner; otherwise
      `show-ref --verify --quiet refs/heads/<name>` decides, exit code 1 meaning "no" and
      any other failure being an error. */
  function BranchExists(c: Client, branch: string): (inv: Invocation<bool>)
    ensures c.runner.None? ==> inv == Invocation(Fail(NotConfigured), [])
    ensures c.runner.Some? && TrimSpace(branch) == [] ==> inv == Invocation(Ok(false), [])
    ensures c.runner.Some? && TrimSpace(branch) != [] ==>
      var answer := c.runner.value(ShowRef(branch));
      && inv.runs == [ShowRef(branch)]
      && (inv.result == Ok(true) <==> answer.Ok?)
      && (inv.result == Ok(false) <==> answer.Err? && answer.error.kind == Exit(1))
      && (inv.result.Err? <==> answer.Err? && answer.error.kind != Exit(1))
      && (inv.result.Err? ==> inv.result.error == answer.error)
  {
    match c.runner
    case None => Invocation(Fail(NotConfigured), [])
    case Some(run) =>
      if TrimSpace(branch) == [] then Invocation(Ok(false), [])
      else
        var args := ShowRef(branch);
        match run(args)
        case Ok(_) => Invocation(Ok(true), [args])
        case Err(e) => if e.kind == Exit(1) then Invocation(Ok(false), [args]) else Invocation(Err(e), [args])
  }

  /** `CheckoutBranch`: the name is trimmed; a blank name is an error and runs nothing; a name
      equal to the current branch returns `already on '<name>'` and never runs `checkout`. */
  function CheckoutBranch(c: Client, branch: string): (inv: Invocation<string>)
    ensures c.runner.None? ==> inv == Invocation(Fail(NotConfigured), [])
    ensures c.runner.Some? && TrimSpace(branch) == [] ==> inv == Invocation(Fail(BranchRequired), [])
    ensures c.runner.Some? && TrimSpace(branch) != [] ==> |inv.runs| >= 1 && inv.runs[0] == RevParse
    ensures c.runner.Some? && TrimSpace(branch) != [] ==>
      match c.runner.value(RevParse)
      case Err(e) => inv == Invocation(Err(e), [RevParse])
      case Ok(current) =>
        if TrimSpace(branch) == current then inv == Invocation(Ok(AlreadyOn(current)), [RevParse])
        else inv == Invocation(c.runner.value(["checkout", TrimSpace(branch)]), [RevParse, ["checkout", TrimSpace(branch)]])
  {
    match c.runner
    case None => Invocation(Fail(NotConfigured), [])
    case Some(run) =>
      var name := TrimSpace(branch);
      if name == [] then Invocation(Fail(BranchRequired), [])
      else
        var current := CurrentBranch(c);
        match current.result
        case Err(e) => Invocation(Err(e), current.runs)
        case Ok(cur) =>
          if name == cur then Invocation(Ok(AlreadyOn(name)), current.runs)
          else Invocation(run(["checkout", name]), current.runs + [["checkout", name]])
  }

  /** `checkout` only ever runs with a non-blank name different from the current branch. */
  lemma CheckoutOnlyWhenElsewhere(c: Client, branch: string, i: int)
    requires 0 <= i < |CheckoutBranch(c, branch).runs|
    requires CheckoutBranch(c, branch).runs[i][0] == "checkout"
    ensures c.runner.Some? && c.runner.value(RevParse).Ok?
    ensures CheckoutBranch(c, branch).runs[i] == ["checkout", TrimSpace(branch)]
    ensures TrimSpace(branch) != [] && TrimSpace(branch) != c.runner.value(RevParse).value
  {
  }
}
