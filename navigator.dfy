/** The recent-branch navigator of internal/navigator/navigator.go: reflog moves first, then
    branches by commit date, each candidate trimmed, blanks, the current branch, duplicates and
    names that do not exist dropped, stopping at `limit`. The Git service is a snapshot of what
    each of its four calls answers; every call made is recorded, in order. */
module Navigator {
  import opened Core
  import opened Text

  /** What the navigator asks of Git: `CurrentBranch`, `ReflogBranchMoves`,
      `BranchesByCommitDate` and `BranchExists(ctx, branch)`. */
  datatype Service = Service(
    current: Result<string>,
    reflog: Result<seq<string>>,
    byDate: Result<seq<string>>,
    branchExists: string -> Result<bool>)

  /** One call into the service. */
  datatype Call = GetCurrent | GetReflog | GetByDate | Exists(branch: string)

  /** A `*Navigator`; `git == None` stands for a nil service. A nil `*Navigator` is a
      `None` of `Option<Navigator>`. */
  datatype Navigator = Navigator(git: Option<Service>)

  /** The state `appendBranches` hands back: its result, the `seen` set it has grown, and the
      calls it made. */
  datatype Pass = Pass(result: Result<seq<string>>, seen: set<string>, calls: seq<Call>)

  /** What `RecentBranches` returns, and the calls it made. */
  datatype Outcome = Outcome(result: Result<seq<string>>, calls: seq<Call>)

  const ServiceRequired := "git service is required"
  const NotConfigured := "navigator is not configured"

  /** `New`: a nil service is refused. */
  function New(git: Option<Service>): (r: Result<Navigator>)
    ensures r.Ok? <==> git.Some?
    ensures r.Ok? ==> r.value.git == git
    ensures r.Err? ==> r.error.message == ServiceRequired
  {
    match git
    case None => Fail(ServiceRequired)
    case Some(_) => Ok(Navigator(git))
  }

  /** The error a call into `s` answers with, if it fails. */
  function CallError(s: Service, c: Call): Option<Error>
  {
    match c
    case GetCurrent => if s.current.Err? then Some(s.current.error) else None
    case GetReflog => if s.reflog.Err? then Some(s.reflog.error) else None
    case GetByDate => if s.byDate.Err? then Some(s.byDate.error) else None
    case Exists(b) => if s.branchExists(b).Err? then Some(s.branchExists(b).error) else None
  }

  /** The calls of `p` are prefixed by `calls`. */
  function After(calls: seq<Call>, p: Pass): Pass
  {
    Pass(p.result, p.seen, calls + p.calls)
  }

  lemma AfterAfter(a: seq<Call>, b: seq<Call>, p: Pass)
    ensures After(a, After(b, p)) == After(a + b, p)
  {
    assert a + (b + p.calls) == (a + b) + p.calls;
  }

  // ---------------------------------------------------------------------------------------
  // appendBranches

  /** What `appendBranches(ctx, acc, cands, seen, limit)` does, candidate by candidate. */
  function Collect(s: Service, acc: seq<string>, seen: set<string>, cands: seq<string>, limit: int): Pass
    decreases |cands|
  {
    if cands == [] then Pass(Ok(acc), seen, [])
    else
      var c := TrimSpace(cands[0]);
      if c == [] || c in seen then Collect(s, acc, seen, cands[1..], limit)
      else
        match s.branchExists(c)
        case Err(e) => Pass(Err(e), seen, [Exists(c)])
        case Ok(found) =>
          if !found then After([Exists(c)], Collect(s, acc, seen, cands[1..], limit))
          else if |acc + [c]| >= limit then Pass(Ok(acc + [c]), seen + {c}, [Exists(c)])
          else After([Exists(c)], Collect(s, acc + [c], seen + {c}, cands[1..], limit))
  }

  /** `appendBranches`: a loop over the candidates that grows `seen` and the result, leaving
      early on an error or once `limit` names are collected. */
  method AppendBranches(s: Service, acc: seq<string>, seen: set<string>, cands: seq<string>, limit: int)
    returns (result: Result<seq<string>>, seenOut: set<string>, calls: seq<Call>)
    ensures Pass(result, seenOut, calls) == Collect(s, acc, seen, cands, limit)
  {
    var current := acc;
    seenOut := seen;
    calls := [];
    var rest := cands;
    while rest != []
      invariant Collect(s, acc, seen, cands, limit) == After(calls, Collect(s, current, seenOut, rest, limit))
      decreases |rest|
    {
      var candidate := TrimSpace(rest[0]);
      var tail := rest[1..];
      if candidate == [] || candidate in seenOut {
        rest := tail;
        continue;
      }
      var answer := s.branchExists(candidate);
      var before := calls;
      calls := calls + [Exists(candidate)];
      if answer.Err? {
        return Err(answer.error), seenOut, calls;
      }
      if !answer.value {
        AfterAfter(before, [Exists(candidate)], Collect(s, current, seenOut, tail, limit));
        rest := tail;
        continue;
      }
      seenOut := seenOut + {candidate};
      current := current + [candidate];
      if |current| >= limit {
        return Ok(current), seenOut, calls;
      }
      AfterAfter(before, [Exists(candidate)], Collect(s, current, seenOut, tail, limit));
      rest := tail;
    }
    result := Ok(current);
  }

  // ---------------------------------------------------------------------------------------
  // RecentBranches

  /** What `RecentBranches(ctx, limit)` does: the reflog pass with `seen` seeded by the current
      branch, and, unless that pass already holds `limit` names, the commit-date pass. */
  function Recent(n: Option<Navigator>, limit: int): Outcome
  {
    if n.None? || n.value.git.None? then Outcome(Fail(NotConfigured), [])
    else if limit <= 0 then Outcome(Ok([]), [])
    else
      var s := n.value.git.value;
      match s.current
      case Err(e) => Outcome(Err(e), [GetCurrent])
      case Ok(cur) =>
        match s.reflog
        case Err(e) => Outcome(Err(e), [GetCurrent, GetReflog])
        case Ok(reflog) =>
          var p1 := Collect(s, [], {cur}, reflog, limit);
          var calls1 := [GetCurrent, GetReflog] + p1.calls;
          match p1.result
          case Err(e) => Outcome(Err(e), calls1)
          case Ok(r1) =>
            if |r1| >= limit then Outcome(Ok(r1), calls1)
            else
              match s.byDate
              case Err(e) => Outcome(Err(e), calls1 + [GetByDate])
              case Ok(fallback) =>
                var p2 := Collect(s, r1, p1.seen, fallback, limit);
                Outcome(p2.result, calls1 + [GetByDate] + p2.calls)
  }

  /** `RecentBranches`: the two passes in sequence, returning early on every error. */
  method RecentBranches(n: Option<Navigator>, limit: int) returns (result: Result<seq<string>>, calls: seq<Call>)
    ensures Outcome(result, calls) == Recent(n, limit)
    ensures n.None? || n.value.git.None? ==> result == Fail(NotConfigured) && calls == []
    ensures n.Some? && n.value.git.Some? && limit <= 0 ==> result == Ok([]) && calls == []
  {
    if n.None? || n.value.git.None? {
      return Fail(NotConfigured), [];
    }
    if limit <= 0 {
      return Ok([]), [];
    }
    var s := n.value.git.value;
    calls := [GetCurrent];
    if s.current.Err? {
      return Err(s.current.error), calls;
    }
    var current := s.current.value;
    var seen := {current};
    calls := calls + [GetReflog];
    if s.reflog.Err? {
      return Err(s.reflog.error), calls;
    }
    var results, passCalls;
    results, seen, passCalls := AppendBranches(s, [], seen, s.reflog.value, limit);
    calls := calls + passCalls;
    if results.Err? {
      return Err(results.error), calls;
    }
    if |results.value| >= limit {
      return results, calls;
    }
    calls := calls + [GetByDate];
    if s.byDate.Err? {
      return Err(s.byDate.error), calls;
    }
    var more;
    results, seen, more := AppendBranches(s, results.value, seen, s.byDate.value, limit);
    calls := calls + more;
    result := results;
  }

  // ---------------------------------------------------------------------------------------
  // Properties

  /** No name occurs twice. */
  predicate NoDup(r: seq<string>)
  {
    forall i, j :: 0 <= i < j < |r| ==> r[i] != r[j]
  }

  /** `x` is `y` with some elements left out, order kept. */
  predicate Subseq(x: seq<string>, y: seq<string>)
    decreases |y|
  {
    if y == [] then x == []
    else (x != [] && x[0] == y[0] && Subseq(x[1..], y[1..])) || Subseq(x, y[1..])
  }

  lemma {:induction false} SubseqOfEmpty(y: seq<string>)
    ensures Subseq([], y)
    decreases |y|
  {
    if y != [] {
      SubseqOfEmpty(y[1..]);
    }
  }

  /** The candidates as `appendBranches` sees them, each trimmed. */
  function TrimEach(cands: seq<string>): (r: seq<string>)
    ensures |r| == |cands|
    ensures forall i :: 0 <= i < |cands| ==> r[i] == TrimSpace(cands[i])
  {
    if cands == [] then [] else [TrimSpace(cands[0])] + TrimEach(cands[1..])
  }

  /** What the collected names satisfy at every step: distinct, recorded in `seen`, not the
      current branch (which `seen` holds), trimmed, not blank, and confirmed to exist. */
  predicate Sound(s: Service, r: seq<string>, seen: set<string>, current: string)
  {
    && current in seen
    && NoDup(r)
    && forall i :: 0 <= i < |r| ==>
         && r[i] in seen
         && r[i] != current
         && r[i] != []
         && Trimmed(r[i], Whitespace)
         && s.branchExists(r[i]) == Ok(true)
  }

  /** `appendBranches` keeps the collected names sound. */
  lemma {:induction false} CollectSound(s: Service, acc: seq<string>, seen: set<string>, cands: seq<string>, limit: int, current: string)
    requires Sound(s, acc, seen, current)
    ensures var p := Collect(s, acc, seen, cands, limit);
      p.result.Ok? ==> Sound(s, p.result.value, p.seen, current)
    decreases |cands|
  {
    if cands != [] {
      var c := TrimSpace(cands[0]);
      if c == [] || c in seen {
        CollectSound(s, acc, seen, cands[1..], limit, current);
      } else if s.branchExists(c) == Ok(false) {
        CollectSound(s, acc, seen, cands[1..], limit, current);
      } else if s.branchExists(c) == Ok(true) {
        var acc' := acc + [c];
        assert Sound(s, acc', seen + {c}, current) by {
          assert forall i :: 0 <= i < |acc| ==> acc'[i] == acc[i];
        }
        CollectSound(s, acc', seen + {c}, cands[1..], limit, current);
      }
    }
  }

  /** `appendBranches` extends what it was given by a subsequence of the trimmed candidates;
      every name it adds to `seen` is one it collected, and below `limit` nothing is left
      out: each trimmed, non-blank candidate that exists has ended up in `seen`. */
  lemma {:induction false} CollectOrder(s: Service, acc: seq<string>, seen: set<string>, cands: seq<string>, limit: int)
    ensures var p := Collect(s, acc, seen, cands, limit);
      p.result.Ok? ==>
        && |acc| <= |p.result.value|
        && p.result.value == acc + p.result.value[|acc|..]
        && Subseq(p.result.value[|acc|..], TrimEach(cands))
        && seen <= p.seen
        && (forall x :: x in p.seen ==> x in seen || x in p.result.value)
    decreases |cands|
  {
    var p := Collect(s, acc, seen, cands, limit);
    if cands == [] {
      assert p.result.value[|acc|..] == [];
    } else {
      var c := TrimSpace(cands[0]);
      var tail := TrimEach(cands[1..]);
      assert TrimEach(cands) == [c] + tail;
      if c == [] || c in seen || s.branchExists(c) == Ok(false) {
        CollectOrder(s, acc, seen, cands[1..], limit);
      } else if s.branchExists(c) == Ok(true) {
        var acc' := acc + [c];
        if |acc'| >= limit {
          assert p == Pass(Ok(acc'), seen + {c}, [Exists(c)]);
          assert acc'[|acc|..] == [c];
          SubseqOfEmpty(tail);
        } else {
          var q := Collect(s, acc', seen + {c}, cands[1..], limit);
          assert p == After([Exists(c)], q);
          CollectOrder(s, acc', seen + {c}, cands[1..], limit);
          if q.result.Ok? {
            var r := q.result.value;
            assert r[|acc|..] == [c] + r[|acc'|..];
            assert r[|acc|..][1..] == r[|acc'|..];
          }
        }
      }
    }
  }

  /** Below `limit`, `appendBranches` leaves out no candidate that is trimmed non-blank,
      unseen and exists. */
  lemma {:induction false} CollectComplete(s: Service, acc: seq<string>, seen: set<string>, cands: seq<string>, limit: int)
    ensures var p := Collect(s, acc, seen, cands, limit);
      p.result.Ok? && |p.result.value| < limit ==>
        forall i :: 0 <= i < |cands| && TrimSpace(cands[i]) != [] && s.branchExists(TrimSpace(cands[i])) == Ok(true) ==>
          TrimSpace(cands[i]) in p.seen
    decreases |cands|
  {
    if cands != [] {
      var c := TrimSpace(cands[0]);
      var p := Collect(s, acc, seen, cands, limit);
      if c == [] || c in seen || s.branchExists(c) == Ok(false) {
        CollectComplete(s, acc, seen, cands[1..], limit);
        CollectGrowsSeen(s, acc, seen, cands[1..], limit);
        assert forall i :: 1 <= i < |cands| ==> cands[i] == cands[1..][i - 1];
      } else if s.branchExists(c) == Ok(true) && |acc + [c]| < limit {
        CollectComplete(s, acc + [c], seen + {c}, cands[1..], limit);
        CollectGrowsSeen(s, acc + [c], seen + {c}, cands[1..], limit);
        assert forall i :: 1 <= i < |cands| ==> cands[i] == cands[1..][i - 1];
      }
    }
  }

  /** `seen` only grows. */
  lemma {:induction false} CollectGrowsSeen(s: Service, acc: seq<string>, seen: set<string>, cands: seq<string>, limit: int)
    ensures seen <= Collect(s, acc, seen, cands, limit).seen
    decreases |cands|
  {
    if cands != [] {
      var c := TrimSpace(cands[0]);
      CollectGrowsSeen(s, acc, seen, cands[1..], limit);
      CollectGrowsSeen(s, acc + [c], seen + {c}, cands[1..], limit);
    }
  }

  /** Every call is a `BranchExists` call. */
  predicate OnlyExists(calls: seq<Call>)
  {
    forall i :: 0 <= i < |calls| ==> calls[i].Exists?
  }

  /** `appendBranches` asks only `BranchExists`. */
  lemma {:induction false} CollectAsksExists(s: Service, acc: seq<string>, seen: set<string>, cands: seq<string>, limit: int)
    ensures OnlyExists(Collect(s, acc, seen, cands, limit).calls)
    decreases |cands|
  {
    if cands != [] {
      var c := TrimSpace(cands[0]);
      var p := Collect(s, acc, seen, cands, limit);
      if c == [] || c in seen {
        CollectAsksExists(s, acc, seen, cands[1..], limit);
      } else if s.branchExists(c).Ok? {
        var found := s.branchExists(c).value;
        var acc' := if found then acc + [c] else acc;
        var seen' := if found then seen + {c} else seen;
        if !found || |acc'| < limit {
          var q := Collect(s, acc', seen', cands[1..], limit);
          assert p == After([Exists(c)], q);
          CollectAsksExists(s, acc', seen', cands[1..], limit);
          assert forall i :: 1 <= i < |p.calls| ==> p.calls[i] == q.calls[i - 1];
        }
      }
    }
  }

  /** No call in `calls` failed. */
  predicate NoneFailed(s: Service, calls: seq<Call>)
  {
    forall i :: 0 <= i < |calls| ==> CallError(s, calls[i]) == None
  }

  /** An error aborts at once: no call but the last failed, and the result is an error
      exactly when the last call failed, with that call's error. */
  predicate AbortsOnError<T>(s: Service, calls: seq<Call>, result: Result<T>)
  {
    && (forall i :: 0 <= i < |calls| - 1 ==> CallError(s, calls[i]) == None)
    && (if calls == [] then None else CallError(s, calls[|calls| - 1]))
       == (if result.Err? then Some(result.error) else None)
  }

  lemma AbortsOnErrorAfter<T>(s: Service, a: seq<Call>, b: seq<Call>, result: Result<T>)
    requires NoneFailed(s, a) && AbortsOnError(s, b, result)
    ensures AbortsOnError(s, a + b, result)
  {
    if b == [] {
      assert a + b == a;
    } else {
      assert (a + b)[|a + b| - 1] == b[|b| - 1];
      assert forall i :: |a| <= i < |a + b| ==> (a + b)[i] == b[i - |a|];
    }
  }

  lemma AbortsOnErrorOk<T>(s: Service, calls: seq<Call>, result: Result<T>)
    requires AbortsOnError(s, calls, result) && result.Ok?
    ensures NoneFailed(s, calls)
  {
  }

  /** `appendBranches` stops at the first call that fails and returns that call's error, and
      returns a result exactly when no call failed. */
  lemma {:induction false} CollectStopsAtError(s: Service, acc: seq<string>, seen: set<string>, cands: seq<string>, limit: int)
    ensures var p := Collect(s, acc, seen, cands, limit); AbortsOnError(s, p.calls, p.result)
    decreases |cands|
  {
    if cands != [] {
      var c := TrimSpace(cands[0]);
      var p := Collect(s, acc, seen, cands, limit);
      if c == [] || c in seen {
        CollectStopsAtError(s, acc, seen, cands[1..], limit);
      } else if s.branchExists(c).Ok? {
        var found := s.branchExists(c).value;
        var acc' := if found then acc + [c] else acc;
        var seen' := if found then seen + {c} else seen;
        if !found || |acc'| < limit {
          var q := Collect(s, acc', seen', cands[1..], limit);
          assert p == After([Exists(c)], q);
          CollectStopsAtError(s, acc', seen', cands[1..], limit);
          AbortsOnErrorAfter(s, [Exists(c)], q.calls, q.result);
        }
      }
    }
  }

  /** Started below `limit`, `appendBranches` ends with at most `limit` names. */
  lemma {:induction false} CollectBounded(s: Service, acc: seq<string>, seen: set<string>, cands: seq<string>, limit: int)
    requires |acc| < limit
    ensures var p := Collect(s, acc, seen, cands, limit);
      p.result.Ok? ==> |p.result.value| <= limit
    decreases |cands|
  {
    if cands != [] {
      var c := TrimSpace(cands[0]);
      CollectBounded(s, acc, seen, cands[1..], limit);
      if |acc + [c]| < limit {
        CollectBounded(s, acc + [c], seen + {c}, cands[1..], limit);
      }
    }
  }

  // ---------------------------------------------------------------------------------------
  // A reference for what a pass keeps

  /** The names a pass would keep with no limit: each trimmed candidate that is not blank, not
      in `seen`, not met earlier, and that `BranchExists` confirms, in candidate order. */
  function Eligibles(s: Service, seen: set<string>, cands: seq<string>): seq<string>
    decreases |cands|
  {
    if cands == [] then []
    else
      var c := TrimSpace(cands[0]);
      if c == [] || c in seen || s.branchExists(c) != Ok(true) then Eligibles(s, seen, cands[1..])
      else [c] + Eligibles(s, seen + {c}, cands[1..])
  }

  /** `seen` once every candidate has been looked at, with no limit. */
  function Passed(s: Service, seen: set<string>, cands: seq<string>): set<string>
    decreases |cands|
  {
    if cands == [] then seen
    else
      var c := TrimSpace(cands[0]);
      if c == [] || c in seen || s.branchExists(c) != Ok(true) then Passed(s, seen, cands[1..])
      else Passed(s, seen + {c}, cands[1..])
  }

  /** The first `n` elements of `xs`, or all of them. */
  function First(xs: seq<string>, n: int): seq<string>
    decreases |xs|
  {
    if n <= 0 || xs == [] then [] else [xs[0]] + First(xs[1..], n - 1)
  }

  /** `First(xs, n)` is the prefix of `xs` of length `n`, or all of `xs` when it is shorter. */
  lemma {:induction false} FirstIsPrefix(xs: seq<string>, n: int)
    ensures var r := First(xs, n);
      |r| == (if n <= 0 then 0 else if n < |xs| then n else |xs|) && r == xs[..|r|]
    decreases |xs|
  {
    if n > 0 && xs != [] {
      FirstIsPrefix(xs[1..], n - 1);
    }
  }

  lemma {:induction false} FirstAppend(a: seq<string>, b: seq<string>, n: int)
    ensures |a| < n ==> First(a + b, n) == a + First(b, n - |a|)
    ensures n <= |a| ==> First(a + b, n) == First(a, n)
  {
    var l := First(a + b, n);
    FirstIsPrefix(a + b, n);
    FirstIsPrefix(a, n);
    FirstIsPrefix(b, n - |a|);
    if |a| < n {
      assert |l| == |a| + |First(b, n - |a|)|;
      assert l == (a + b)[..|l|];
      assert First(b, n - |a|) == b[..|l| - |a|];
    } else {
      assert l == (a + b)[..|l|] && First(a, n) == a[..|l|];
    }
  }

  /** Looking at `a` and then at `b` keeps what `a` keeps, then what `b` keeps after it. */
  lemma {:induction false} EligiblesAppend(s: Service, seen: set<string>, a: seq<string>, b: seq<string>)
    ensures Eligibles(s, seen, a + b) == Eligibles(s, seen, a) + Eligibles(s, Passed(s, seen, a), b)
    decreases |a|
  {
    if a == [] {
      assert a + b == b;
    } else {
      assert (a + b)[0] == a[0] && (a + b)[1..] == a[1..] + b;
      var c := TrimSpace(a[0]);
      if c == [] || c in seen || s.branchExists(c) != Ok(true) {
        EligiblesAppend(s, seen, a[1..], b);
      } else {
        EligiblesAppend(s, seen + {c}, a[1..], b);
      }
    }
  }

  /** A pass keeps exactly the first eligible names, as many as fit under `limit`: it skips no
      candidate it reached and takes none after the one that filled the limit. */
  lemma {:induction false} CollectTakesFirst(s: Service, acc: seq<string>, seen: set<string>, cands: seq<string>, limit: int)
    requires |acc| < limit
    ensures var p := Collect(s, acc, seen, cands, limit);
      p.result.Ok? ==> p.result.value == acc + First(Eligibles(s, seen, cands), limit - |acc|)
    decreases |cands|
  {
    var p := Collect(s, acc, seen, cands, limit);
    if cands == [] {
      assert acc + [] == acc;
    } else {
      var c := TrimSpace(cands[0]);
      if c == [] || c in seen || s.branchExists(c) == Ok(false) {
        assert Eligibles(s, seen, cands) == Eligibles(s, seen, cands[1..]);
        assert p.result == Collect(s, acc, seen, cands[1..], limit).result;
        CollectTakesFirst(s, acc, seen, cands[1..], limit);
      } else if s.branchExists(c) == Ok(true) {
        var rest := Eligibles(s, seen + {c}, cands[1..]);
        assert Eligibles(s, seen, cands) == [c] + rest;
        FirstCons(c, rest, limit - |acc|);
        if |acc + [c]| < limit {
          assert p.result == Collect(s, acc + [c], seen + {c}, cands[1..], limit).result;
          CollectTakesFirst(s, acc + [c], seen + {c}, cands[1..], limit);
        } else {
          assert p.result == Ok(acc + [c]);
        }
      }
    }
  }

  lemma FirstCons(c: string, rest: seq<string>, n: int)
    requires n >= 1
    ensures First([c] + rest, n) == [c] + First(rest, n - 1)
  {
    assert ([c] + rest)[1..] == rest;
  }

  /** A pass that stops short of `limit` has looked at every candidate. */
  lemma {:induction false} CollectPassed(s: Service, acc: seq<string>, seen: set<string>, cands: seq<string>, limit: int)
    ensures var p := Collect(s, acc, seen, cands, limit);
      p.result.Ok? && |p.result.value| < limit ==> p.seen == Passed(s, seen, cands)
    decreases |cands|
  {
    if cands != [] {
      var c := TrimSpace(cands[0]);
      if c == [] || c in seen || s.branchExists(c) == Ok(false) {
        CollectPassed(s, acc, seen, cands[1..], limit);
      } else if s.branchExists(c) == Ok(true) && |acc + [c]| < limit {
        CollectPassed(s, acc + [c], seen + {c}, cands[1..], limit);
      }
    }
  }

  // ---------------------------------------------------------------------------------------
  // Properties of RecentBranches

  /** A configured navigator over `s`. */
  function Over(s: Service): Option<Navigator>
  {
    Some(Navigator(Some(s)))
  }

  /** The reflog pass of `RecentBranches`, with `seen` seeded by the current branch. */
  function ReflogPass(s: Service, limit: int): Pass
    requires s.current.Ok? && s.reflog.Ok?
  {
    Collect(s, [], {s.current.value}, s.reflog.value, limit)
  }

  /** The result has no duplicates, never holds the current branch, holds at most `limit`
      names (none for `limit <= 0`), each trimmed, non-blank and confirmed by `BranchExists`. */
  lemma RecentSound(s: Service, limit: int)
    ensures var o := Recent(Over(s), limit);
      o.result.Ok? ==>
        var r := o.result.value;
        && NoDup(r)
        && (limit <= 0 ==> r == [])
        && (limit > 0 ==> |r| <= limit)
        && (r != [] ==> s.current.Ok?)
        && forall i :: 0 <= i < |r| ==>
             && r[i] != s.current.value
             && r[i] != []
             && Trimmed(r[i], Whitespace)
             && s.branchExists(r[i]) == Ok(true)
  {
    if limit > 0 && s.current.Ok? && s.reflog.Ok? {
      var cur := s.current.value;
      var p1 := ReflogPass(s, limit);
      CollectSound(s, [], {cur}, s.reflog.value, limit, cur);
      CollectBounded(s, [], {cur}, s.reflog.value, limit);
      if p1.result.Ok? && |p1.result.value| < limit && s.byDate.Ok? {
        CollectSound(s, p1.result.value, p1.seen, s.byDate.value, limit, cur);
        CollectBounded(s, p1.result.value, p1.seen, s.byDate.value, limit);
      }
    }
  }

  /** Reflog names come first, in reflog order; the commit-date names follow, in their order. */
  lemma RecentOrder(s: Service, limit: int)
    ensures var o := Recent(Over(s), limit);
      o.result.Ok? && limit > 0 ==>
        && s.current.Ok? && s.reflog.Ok?
        && ReflogPass(s, limit).result.Ok?
        && var r1 := ReflogPass(s, limit).result.value;
           && |r1| <= |o.result.value|
           && o.result.value[..|r1|] == r1
           && Subseq(r1, TrimEach(s.reflog.value))
           && (|r1| < |o.result.value| ==> s.byDate.Ok? && Subseq(o.result.value[|r1|..], TrimEach(s.byDate.value)))
  {
    if limit > 0 && s.current.Ok? && s.reflog.Ok? {
      var cur := s.current.value;
      var p1 := ReflogPass(s, limit);
      CollectOrder(s, [], {cur}, s.reflog.value, limit);
      assert p1.result.Ok? ==> p1.result.value[0..] == p1.result.value;
      if p1.result.Ok? && |p1.result.value| < limit && s.byDate.Ok? {
        CollectOrder(s, p1.result.value, p1.seen, s.byDate.value, limit);
      }
    }
  }

  /** Below `limit` nothing is missing: every trimmed reflog or commit-date candidate that is
      not blank, not the current branch and exists is in the result. */
  lemma RecentComplete(s: Service, limit: int)
    ensures var o := Recent(Over(s), limit);
      o.result.Ok? && |o.result.value| < limit ==>
        && s.current.Ok? && s.reflog.Ok? && s.byDate.Ok?
        && (forall i :: 0 <= i < |s.reflog.value| && Eligible(s, TrimSpace(s.reflog.value[i])) ==>
              TrimSpace(s.reflog.value[i]) in o.result.value)
        && (forall i :: 0 <= i < |s.byDate.value| && Eligible(s, TrimSpace(s.byDate.value[i])) ==>
              TrimSpace(s.byDate.value[i]) in o.result.value)
  {
    var o := Recent(Over(s), limit);
    if o.result.Ok? && |o.result.value| < limit {
      var cur := s.current.value;
      var p1 := ReflogPass(s, limit);
      var r1 := p1.result.value;
      var p2 := Collect(s, r1, p1.seen, s.byDate.value, limit);
      assert o.result == p2.result;
      var r := o.result.value;
      CollectComplete(s, [], {cur}, s.reflog.value, limit);
      CollectOrder(s, [], {cur}, s.reflog.value, limit);
      CollectComplete(s, r1, p1.seen, s.byDate.value, limit);
      CollectOrder(s, r1, p1.seen, s.byDate.value, limit);
      assert forall x :: x in r1 ==> x in r by {
        forall x | x in r1 ensures x in r {
          var k :| 0 <= k < |r1| && r1[k] == x;
          assert r[k] == r1[k];
        }
      }
    }
  }

  /** The result is exactly the first `limit` eligible names of the reflog followed by the
      commit-date list (the reflog alone when that list was not needed), each kept once. */
  lemma RecentTakesFirst(s: Service, limit: int)
    ensures var o := Recent(Over(s), limit);
      o.result.Ok? && limit > 0 ==>
        && s.current.Ok? && s.reflog.Ok?
        && o.result.value ==
           First(Eligibles(s, {s.current.value}, s.reflog.value + (if s.byDate.Ok? then s.byDate.value else [])), limit)
  {
    var o := Recent(Over(s), limit);
    if o.result.Ok? && limit > 0 {
      var cur := s.current.value;
      var p1 := ReflogPass(s, limit);
      var more := if s.byDate.Ok? then s.byDate.value else [];
      var e1 := Eligibles(s, {cur}, s.reflog.value);
      var e2 := Eligibles(s, Passed(s, {cur}, s.reflog.value), more);
      CollectTakesFirst(s, [], {cur}, s.reflog.value, limit);
      EligiblesAppend(s, {cur}, s.reflog.value, more);
      var r1 := p1.result.value;
      assert r1 == First(e1, limit);
      FirstIsPrefix(e1, limit);
      if |r1| >= limit {
        FirstAppend(e1, e2, limit);
      } else {
        assert r1 == e1;
        CollectPassed(s, [], {cur}, s.reflog.value, limit);
        CollectTakesFirst(s, r1, p1.seen, more, limit);
        FirstAppend(e1, e2, limit);
      }
    }
  }

  /** A candidate `RecentBranches` keeps, unless it has been seen or the limit is reached. */
  predicate Eligible(s: Service, name: string)
    requires s.current.Ok?
  {
    name != [] && name != s.current.value && s.branchExists(name) == Ok(true)
  }

  /** Every error aborts with that error: the result is an error exactly when the last call
      failed, no earlier call failed, and a nil navigator or service fails before any call. */
  lemma RecentAbortsOnError(n: Option<Navigator>, limit: int)
    ensures var o := Recent(n, limit);
      && (n.None? || n.value.git.None? ==> o.result == Fail(NotConfigured) && o.calls == [])
      && (n.Some? && n.value.git.Some? ==> AbortsOnError(n.value.git.value, o.calls, o.result))
  {
    if n.Some? && n.value.git.Some? && limit > 0 {
      var s := n.value.git.value;
      if s.current.Ok? && s.reflog.Ok? {
        var cur := s.current.value;
        var p1 := Collect(s, [], {cur}, s.reflog.value, limit);
        CollectStopsAtError(s, [], {cur}, s.reflog.value, limit);
        AbortsOnErrorAfter(s, [GetCurrent, GetReflog], p1.calls, p1.result);
        if p1.result.Ok? && |p1.result.value| < limit {
          var head := [GetCurrent, GetReflog] + p1.calls;
          AbortsOnErrorOk(s, head, p1.result);
          if s.byDate.Ok? {
            var p2 := Collect(s, p1.result.value, p1.seen, s.byDate.value, limit);
            CollectStopsAtError(s, p1.result.value, p1.seen, s.byDate.value, limit);
            assert NoneFailed(s, head + [GetByDate]);
            AbortsOnErrorAfter(s, head + [GetByDate], p2.calls, p2.result);
          } else {
            AbortsOnErrorAfter(s, head, [GetByDate], s.byDate);
          }
        }
      }
    }
  }

  /** `BranchesByCommitDate` is not asked once the reflog pass holds `limit` names; the
      result is then the reflog pass's. */
  lemma NoFallbackWhenFull(s: Service, limit: int)
    requires limit > 0 && s.current.Ok? && s.reflog.Ok?
    requires ReflogPass(s, limit).result.Ok? && |ReflogPass(s, limit).result.value| >= limit
    ensures Recent(Over(s), limit).result == ReflogPass(s, limit).result
    ensures GetByDate !in Recent(Over(s), limit).calls
  {
    var p1 := ReflogPass(s, limit);
    CollectAsksExists(s, [], {s.current.value}, s.reflog.value, limit);
    assert Recent(Over(s), limit).calls == [GetCurrent, GetReflog] + p1.calls;
    assert forall i :: 2 <= i < |p1.calls| + 2 ==> ([GetCurrent, GetReflog] + p1.calls)[i] == p1.calls[i - 2];
  }
}
