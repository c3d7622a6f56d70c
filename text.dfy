/** The parts of Go's `strings` package the branch picker relies on, over ASCII:
    `TrimSpace`, `Trim`, `ToLower`, `HasPrefix`, `LastIndex`, `Contains` and
    `Split` on a one-character separator. */
module Text {

  /** The ASCII characters `unicode.IsSpace` accepts. */
  const Whitespace: set<char> := {' ', '\t', '\n', '\r', '\U{000B}', '\U{000C}'}

  /** Every character of `s` is in `cut`. */
  predicate AllIn(s: string, cut: set<char>)
  {
    forall k :: 0 <= k < |s| ==> s[k] in cut
  }

  /** `s` neither starts nor ends with a character of `cut`. */
  predicate Trimmed(s: string, cut: set<char>)
  {
    s == [] || (s[0] !in cut && s[|s| - 1] !in cut)
  }

  /** `strings.TrimLeft(s, cut)`: the longest suffix of `s` that does not start with a cut character. */
  function TrimLeft(s: string, cut: set<char>): (r: string)
    ensures |r| <= |s|
    ensures r == [] || r[0] !in cut
  {
    if s != [] && s[0] in cut then TrimLeft(s[1..], cut) else s
  }

  /** What `TrimLeft` removes is a prefix made of cut characters only. */
  lemma {:induction false} TrimLeftIsSuffix(s: string, cut: set<char>)
    ensures var r := TrimLeft(s, cut); r == s[|s| - |r|..] && AllIn(s[..|s| - |r|], cut)
  {
    if s != [] && s[0] in cut {
      TrimLeftIsSuffix(s[1..], cut);
      var r := TrimLeft(s, cut);
      assert s[1..][|s| - 1 - |r|..] == s[|s| - |r|..];
      assert s[..|s| - |r|] == [s[0]] + s[1..][..|s| - 1 - |r|];
    }
  }

  /** `strings.TrimRight(s, cut)`: the longest prefix of `s` that does not end with a cut character. */
  function TrimRight(s: string, cut: set<char>): (r: string)
    ensures |r| <= |s|
    ensures r == [] || r[|r| - 1] !in cut
  {
    if s != [] && s[|s| - 1] in cut then TrimRight(s[..|s| - 1], cut) else s
  }

  /** What `TrimRight` removes is a suffix made of cut characters only. */
  lemma {:induction false} TrimRightIsPrefix(s: string, cut: set<char>)
    ensures var r := TrimRight(s, cut); r == s[..|r|] && AllIn(s[|r|..], cut)
  {
    if s != [] && s[|s| - 1] in cut {
      var p := s[..|s| - 1];
      TrimRightIsPrefix(p, cut);
      var r := TrimRight(s, cut);
      assert p[..|r|] == s[..|r|];
      assert s[|r|..] == p[|r|..] + [s[|s| - 1]];
    }
  }

  /** `strings.Trim(s, cut)`. */
  function Trim(s: string, cut: set<char>): (r: string)
    ensures Trimmed(r, cut) && |r| <= |s|
  {
    var l := TrimLeft(s, cut);
    TrimRightIsPrefix(l, cut);
    TrimRight(l, cut)
  }

  /** Trimming leaves nothing exactly when the whole text consists of cut characters. */
  lemma TrimEmpty(s: string, cut: set<char>)
    ensures Trim(s, cut) == [] <==> AllIn(s, cut)
  {
    var l := TrimLeft(s, cut);
    TrimLeftIsSuffix(s, cut);
    TrimRightIsPrefix(l, cut);
    if Trim(s, cut) == [] {
      assert l[0..] == l;
      assert s[..|s|] == s;
    }
  }

  /** `strings.TrimSpace(s)`, for ASCII white space. */
  function TrimSpace(s: string): string
  {
    Trim(s, Whitespace)
  }

  /** Trimming a string that is already trimmed changes nothing. */
  lemma TrimOfTrimmed(s: string, cut: set<char>)
    requires Trimmed(s, cut)
    ensures TrimLeft(s, cut) == s && TrimRight(s, cut) == s && Trim(s, cut) == s
  {
  }

  /** Trimming is idempotent. */
  lemma TrimIdempotent(s: string, cut: set<char>)
    ensures Trim(Trim(s, cut), cut) == Trim(s, cut)
  {
    TrimOfTrimmed(Trim(s, cut), cut);
  }

  lemma {:induction false} TrimLeftPadding(pre: string, rest: string, cut: set<char>)
    requires AllIn(pre, cut)
    requires rest == [] || rest[0] !in cut
    ensures TrimLeft(pre + rest, cut) == rest
  {
    if pre == [] {
      assert pre + rest == rest;
    } else {
      assert (pre + rest)[1..] == pre[1..] + rest;
      TrimLeftPadding(pre[1..], rest, cut);
    }
  }

  lemma {:induction false} TrimRightPadding(rest: string, post: string, cut: set<char>)
    requires AllIn(post, cut)
    requires rest == [] || rest[|rest| - 1] !in cut
    ensures TrimRight(rest + post, cut) == rest
  {
    if post == [] {
      assert rest + post == rest;
    } else {
      var p := post[..|post| - 1];
      assert (rest + post)[..|rest + post| - 1] == rest + p;
      TrimRightPadding(rest, p, cut);
    }
  }

  /** Trim removes exactly the padding around a trimmed core: `Trim(pre + core + post) == core`
      whenever `pre` and `post` consist of cut characters only. */
  lemma TrimPadding(pre: string, core: string, post: string, cut: set<char>)
    requires AllIn(pre, cut) && AllIn(post, cut) && Trimmed(core, cut)
    ensures Trim(pre + core + post, cut) == core
  {
    if core == [] {
      assert pre + core + post == pre + post;
      assert AllIn(pre + post, cut) by {
        forall k | 0 <= k < |pre + post| ensures (pre + post)[k] in cut {
          if k >= |pre| { assert (pre + post)[k] == post[k - |pre|]; }
        }
      }
      TrimEmpty(pre + post, cut);
    } else {
      assert pre + core + post == pre + (core + post);
      TrimLeftPadding(pre, core + post, cut);
      TrimRightPadding(core, post, cut);
    }
  }

  /** ASCII `unicode.ToLower` on one character. */
  function LowerChar(c: char): char
  {
    if 'A' <= c <= 'Z' then (c as int + 32) as char else c
  }

  lemma LowerCharSpace(c: char)
    ensures (LowerChar(c) in Whitespace) == (c in Whitespace)
  {
  }

  /** `strings.ToLower`, for ASCII letters. */
  function ToLower(s: string): (r: string)
    ensures |r| == |s|
    ensures forall i :: 0 <= i < |s| ==> r[i] == LowerChar(s[i])
  {
    if s == [] then [] else [LowerChar(s[0])] + ToLower(s[1..])
  }

  /** Lower-casing is idempotent. */
  lemma ToLowerIdempotent(s: string)
    ensures ToLower(ToLower(s)) == ToLower(s)
  {
  }

  /** Lower-casing neither creates nor removes white space, so it commutes with trimming. */
  lemma {:induction false} ToLowerTrimLeft(s: string)
    ensures ToLower(TrimLeft(s, Whitespace)) == TrimLeft(ToLower(s), Whitespace)
  {
    if s != [] {
      assert ToLower(s)[1..] == ToLower(s[1..]);
      LowerCharSpace(s[0]);
      if s[0] in Whitespace {
        ToLowerTrimLeft(s[1..]);
      }
    }
  }

  lemma {:induction false} ToLowerTrimRight(s: string)
    ensures ToLower(TrimRight(s, Whitespace)) == TrimRight(ToLower(s), Whitespace)
  {
    if s != [] {
      assert ToLower(s)[..|s| - 1] == ToLower(s[..|s| - 1]);
      LowerCharSpace(s[|s| - 1]);
      if s[|s| - 1] in Whitespace {
        ToLowerTrimRight(s[..|s| - 1]);
      }
    }
  }

  lemma ToLowerTrimSpace(s: string)
    ensures ToLower(TrimSpace(s)) == TrimSpace(ToLower(s))
  {
    ToLowerTrimLeft(s);
    ToLowerTrimRight(TrimLeft(s, Whitespace));
  }

  /** `strings.ToLower(strings.TrimSpace(s))`, the normal form of a user-typed word. */
  function Normalize(s: string): string
  {
    ToLower(TrimSpace(s))
  }

  /** Normalising twice is normalising once. */
  lemma NormalizeIdempotent(s: string)
    ensures Normalize(Normalize(s)) == Normalize(s)
  {
    var t := TrimSpace(s);
    ToLowerTrimSpace(t);
    TrimIdempotent(s, Whitespace);
    ToLowerIdempotent(t);
  }

  /** `strings.HasPrefix(s, p)`. */
  predicate HasPrefix(s: string, p: string)
  {
    |p| <= |s| && s[..|p|] == p
  }

  /** `sub` occurs in `s` starting at index `i`. */
  predicate OccursAt(s: string, sub: string, i: int)
  {
    0 <= i && i + |sub| <= |s| && s[i..i + |sub|] == sub
  }

  /** `strings.Contains(s, sub)`. */
  predicate Contains(s: string, sub: string)
  {
    exists i | 0 <= i <= |s| - |sub| :: OccursAt(s, sub, i)
  }

  function LastIndexFrom(s: string, sub: string, i: int): (r: int)
    requires i <= |s| - |sub|
    ensures r == -1 || (0 <= r <= i && OccursAt(s, sub, r))
    ensures forall j :: r < j <= i ==> !OccursAt(s, sub, j)
    decreases i + 1
  {
    if i < 0 then -1
    else if OccursAt(s, sub, i) then i
    else LastIndexFrom(s, sub, i - 1)
  }

  /** `strings.LastIndex(s, sub)`: the last index where `sub` occurs in `s`, or -1. */
  function LastIndex(s: string, sub: string): (r: int)
    ensures r == -1 || OccursAt(s, sub, r)
    ensures forall j :: r < j ==> !OccursAt(s, sub, j)
  {
    if |sub| > |s| then -1 else LastIndexFrom(s, sub, |s| - |sub|)
  }

  /** `strings.Split(s, string(sep))`: the pieces between separators, always at least one. */
  function Split(s: string, sep: char): (parts: seq<string>)
    ensures |parts| >= 1
    ensures forall i :: 0 <= i < |parts| ==> sep !in parts[i]
  {
    if s == [] then [[]]
    else
      var rest := Split(s[1..], sep);
      if s[0] == sep then [[]] + rest else [[s[0]] + rest[0]] + rest[1..]
  }

  /** `strings.Join(parts, string(sep))`. */
  function Join(parts: seq<string>, sep: char): string
    requires |parts| >= 1
  {
    if |parts| == 1 then parts[0] else parts[0] + [sep] + Join(parts[1..], sep)
  }

  /** Joining the pieces of a split gives back the original text. */
  lemma {:induction false} JoinSplit(s: string, sep: char)
    ensures Join(Split(s, sep), sep) == s
  {
    if s != [] {
      var rest := Split(s[1..], sep);
      JoinSplit(s[1..], sep);
      if s[0] == sep {
        assert Split(s, sep) == [[]] + rest;
        assert ([[]] + rest)[1..] == rest;
      } else {
        var parts := Split(s, sep);
        assert parts == [[s[0]] + rest[0]] + rest[1..];
        if |rest| == 1 {
          assert parts == [[s[0]] + rest[0]];
        } else {
          assert parts[1..] == rest[1..];
        }
      }
    }
  }

  lemma {:induction false} SplitNoSep(x: string, sep: char)
    requires sep !in x
    ensures Split(x, sep) == [x]
  {
    if x != [] {
      SplitNoSep(x[1..], sep);
      assert [x[0]] + x[1..] == x;
    }
  }

  lemma {:induction false} SplitAfterPiece(x: string, y: string, sep: char)
    requires sep !in x
    ensures Split(x + [sep] + y, sep) == [x] + Split(y, sep)
  {
    if x == [] {
      assert x + [sep] + y == [sep] + y;
      assert ([sep] + y)[1..] == y;
    } else {
      assert (x + [sep] + y)[1..] == x[1..] + [sep] + y;
      SplitAfterPiece(x[1..], y, sep);
      assert [x[0]] + x[1..] == x;
    }
  }

  /** Splitting a join of separator-free pieces gives back the pieces. */
  lemma {:induction false} SplitJoin(parts: seq<string>, sep: char)
    requires |parts| >= 1
    requires forall i :: 0 <= i < |parts| ==> sep !in parts[i]
    ensures Split(Join(parts, sep), sep) == parts
  {
    if |parts| == 1 {
      SplitNoSep(parts[0], sep);
    } else {
      SplitJoin(parts[1..], sep);
      SplitAfterPiece(parts[0], Join(parts[1..], sep), sep);
      assert [parts[0]] + parts[1..] == parts;
    }
  }
}
