/** The two regular-expression substitutions for postfix NOT that both notation
    pipelines apply to an expression's text: `(H\w*)!` for NOT on a bare operand
    and the repeated `\([^()]+\)!` for NOT on a parenthesised group. Each is a
    left-to-right scanner with `re.sub`'s rules: a match is tried at each
    position; a match is replaced and the scan resumes after it; otherwise the
    character is kept and the scan moves one position on. */
module Rewrite {
  import opened Text

  /** The class of the first character of the operand of a bare postfix `!`:
      `[A-Za-z_]` in the simplifier's pattern, `[A-Za-z0-9_]` in the truth table's. */
  datatype RunHead = IdentifierHead | AnyWordHead

  predicate Opens(h: RunHead, c: char) {
    match h
    case IdentifierHead => IsIdentStart(c)
    case AnyWordHead => IsWordChar(c)
  }

  /** Does `(H\w*)!` match at the front of `s`? The greedy `\w*` takes the whole run
      of word characters, and since `!` is not one, no shorter run is followed by `!`. */
  predicate RunBangAt(s: string, h: RunHead) {
    |s| > 0 && Opens(h, s[0]) && WordRun(s) < |s| && s[WordRun(s)] == '!'
  }

  /** `re.search` for the same pattern: is there a match at some position of `s`? */
  predicate HasRunBang(s: string, h: RunHead) {
    |s| > 0 && (RunBangAt(s, h) || HasRunBang(s[1..], h))
  }

  /** `re.sub(r"(H\w*)!", open + r"\1" + close, s)`. Each match gives up its `!`, so
      the number of `!` goes down exactly when there was a match. */
  function RunBangPass(s: string, h: RunHead, open: string, close: string): (r: string)
    requires '!' !in open && '!' !in close
    ensures Count(r, '!') <= Count(s, '!')
    ensures Count(r, '!') < Count(s, '!') <==> HasRunBang(s, h)
    decreases |s|
  {
    if s == [] then []
    else if RunBangAt(s, h) then
      var k := WordRun(s);
      var tail := RunBangPass(s[k + 1..], h, open, close);
      assert s == s[..k] + [s[k]] + s[k + 1..];
      CountConcat(s[..k] + [s[k]], s[k + 1..], '!');
      CountConcat(s[..k], [s[k]], '!');
      CountConcat(open + s[..k] + close, tail, '!');
      CountConcat(open + s[..k], close, '!');
      CountConcat(open, s[..k], '!');
      CountZero(open, '!');
      CountZero(close, '!');
      AllWordExcludes(s[..k], '!');
      CountZero(s[..k], '!');
      open + s[..k] + close + tail
    else
      var tail := RunBangPass(s[1..], h, open, close);
      assert s == [s[0]] + s[1..];
      CountConcat([s[0]], s[1..], '!');
      CountConcat([s[0]], tail, '!');
      [s[0]] + tail
  }

  /** A piece without `!` that ends in a non-word character hides no match, and no
      match can start inside it and reach beyond it. */
  lemma {:induction false} NoRunBangThrough(p: string, t: string, h: RunHead)
    requires '!' !in p
    requires p == [] || !IsWordChar(p[|p| - 1])
    ensures HasRunBang(p + t, h) == HasRunBang(t, h)
  {
    if p == [] {
      assert p + t == t;
    } else {
      WordRunEndsBefore(p);
      WordRunPrefix(p, t);
      assert (p + t)[WordRun(p)] == p[WordRun(p)];
      assert !RunBangAt(p + t, h);
      assert (p + t)[1..] == p[1..] + t;
      NoRunBangThrough(p[1..], t, h);
    }
  }

  /** A run of word characters that is not followed by `!` passes through unchanged. */
  lemma {:induction false} RunBangPassKeepsRun(s: string, h: RunHead, open: string, close: string)
    requires '!' !in open && '!' !in close
    requires WordRun(s) == |s| || s[WordRun(s)] != '!'
    ensures RunBangPass(s, h, open, close) == s[..WordRun(s)] + RunBangPass(s[WordRun(s)..], h, open, close)
  {
    var k := WordRun(s);
    if k > 0 {
      var t := s[1..];
      RunShift(s);
      assert !RunBangAt(s, h);
      RunBangPassSkip(s, h, open, close);
      RunBangPassKeepsRun(t, h, open, close);
      var u := RunBangPass(s[k..], h, open, close);
      ConsConcat(s[..k], u);
    }
  }

  /** Dropping the first character of a run shortens it by one and moves nothing else. */
  lemma RunShift(s: string)
    requires WordRun(s) > 0
    ensures WordRun(s[1..]) == WordRun(s) - 1
    ensures s[1..][WordRun(s) - 1..] == s[WordRun(s)..]
    ensures s[..WordRun(s)][0] == s[0]
    ensures s[..WordRun(s)][1..] == s[1..][..WordRun(s) - 1]
    ensures WordRun(s) < |s| ==> s[1..][WordRun(s) - 1] == s[WordRun(s)]
  {
    var k := WordRun(s);
    assert k == 1 + WordRun(s[1..]);
    SliceShift(s, k);
  }

  lemma SliceShift(s: string, k: nat)
    requires 1 <= k <= |s|
    ensures s[1..][k - 1..] == s[k..]
    ensures s[..k][0] == s[0]
    ensures s[..k][1..] == s[1..][..k - 1]
    ensures k < |s| ==> s[1..][k - 1] == s[k]
  {
  }

  /** After the substitution no `H\w*!` match is left, as long as the replacement
      contributes no `!` and ends in a non-word character: every `X!` has been
      rewritten. */
  lemma {:induction false} RunBangPassLeavesNone(s: string, h: RunHead, open: string, close: string)
    requires '!' !in open && '!' !in close
    requires |close| > 0 && !IsWordChar(close[|close| - 1])
    ensures !HasRunBang(RunBangPass(s, h, open, close), h)
  {
    if s == [] {
    } else if RunBangAt(s, h) {
      var k := WordRun(s);
      var tail := RunBangPass(s[k + 1..], h, open, close);
      RunBangPassLeavesNone(s[k + 1..], h, open, close);
      var p := open + s[..k] + close;
      assert p[|p| - 1] == close[|close| - 1];
      AllWordExcludes(s[..k], '!');
      NoRunBangThrough(p, tail, h);
    } else {
      var tail := RunBangPass(s[1..], h, open, close);
      RunBangPassLeavesNone(s[1..], h, open, close);
      var r := [s[0]] + tail;
      assert r[1..] == tail;
      if Opens(h, s[0]) {
        var k := WordRun(s);
        RunBangPassKeepsRun(s, h, open, close);
        var rest := RunBangPass(s[k..], h, open, close);
        assert r == s[..k] + rest;
        if k < |s| {
          assert !Opens(h, s[k]);
          assert rest == [s[k]] + RunBangPass(s[k + 1..], h, open, close);
          WordRunOfWord(s[..k], rest);
          assert r[k] == s[k];
        } else {
          assert rest == [];
          assert s[..k] == s;
          WordRunOfWord(s, []);
          assert r == s;
        }
        assert !RunBangAt(r, h);
      }
    }
  }

  /** Without a match the substitution is the identity. */
  lemma {:induction false} RunBangPassIdentity(s: string, h: RunHead, open: string, close: string)
    requires '!' !in open && '!' !in close
    requires !HasRunBang(s, h)
    ensures RunBangPass(s, h, open, close) == s
  {
    if s != [] {
      RunBangPassIdentity(s[1..], h, open, close);
    }
  }

  /** Running the substitution twice is running it once. */
  lemma RunBangPassIdempotent(s: string, h: RunHead, open: string, close: string)
    requires '!' !in open && '!' !in close
    requires |close| > 0 && !IsWordChar(close[|close| - 1])
    ensures RunBangPass(RunBangPass(s, h, open, close), h, open, close) == RunBangPass(s, h, open, close)
  {
    RunBangPassLeavesNone(s, h, open, close);
    RunBangPassIdentity(RunBangPass(s, h, open, close), h, open, close);
  }

  /** A whole run of word characters followed by `!` is wrapped, run and all. */
  lemma RunBangWraps(x: string, q: string, h: RunHead, open: string, close: string)
    requires '!' !in open && '!' !in close
    requires x != [] && AllWord(x) && Opens(h, x[0])
    ensures RunBangPass(x + "!" + q, h, open, close) == open + x + close + RunBangPass(q, h, open, close)
  {
    var s := x + "!" + q;
    assert s == x + ("!" + q);
    WordRunOfWord(x, "!" + q);
    assert s[..|x|] == x;
    assert s[|x| + 1..] == q;
  }

  /** A prefix without `!` that ends in a non-word character passes through untouched. */
  lemma {:induction false} RunBangPassPrefix(p: string, t: string, h: RunHead, open: string, close: string)
    requires '!' !in open && '!' !in close
    requires '!' !in p
    requires p == [] || !IsWordChar(p[|p| - 1])
    ensures RunBangPass(p + t, h, open, close) == p + RunBangPass(t, h, open, close)
  {
    if p == [] {
      assert p + t == t;
    } else {
      WordRunEndsBefore(p);
      WordRunPrefix(p, t);
      assert (p + t)[WordRun(p)] == p[WordRun(p)];
      RunBangPassSkip(p + t, h, open, close);
      assert (p + t)[1..] == p[1..] + t;
      RunBangPassPrefix(p[1..], t, h, open, close);
      ConsConcat(p, RunBangPass(t, h, open, close));
    }
  }

  lemma ConsConcat(p: string, u: string)
    requires p != []
    ensures p + u == [p[0]] + (p[1..] + u)
  {
    assert p == [p[0]] + p[1..];
  }

  /** Where no match starts, the first character is kept. */
  lemma RunBangPassSkip(s: string, h: RunHead, open: string, close: string)
    requires '!' !in open && '!' !in close
    requires s != [] && !RunBangAt(s, h)
    ensures RunBangPass(s, h, open, close) == [s[0]] + RunBangPass(s[1..], h, open, close)
  {
  }

  /** A character that neither the text nor the replacement holds does not appear. */
  lemma {:induction false} RunBangPassAbsent(s: string, h: RunHead, open: string, close: string, d: char)
    requires '!' !in open && '!' !in close
    requires d !in s && d !in open && d !in close
    ensures d !in RunBangPass(s, h, open, close)
  {
    if s == [] {
    } else if RunBangAt(s, h) {
      var k := WordRun(s);
      RunBangPassAbsent(s[k + 1..], h, open, close, d);
      assert s[..k] + s[k..] == s;
    } else {
      RunBangPassAbsent(s[1..], h, open, close, d);
    }
  }

  /** Every character other than `!` and those of the replacement is kept, as often
      as it occurred: the pass only wraps runs and drops their `!`. */
  lemma {:induction false} RunBangPassCounts(s: string, h: RunHead, open: string, close: string, d: char)
    requires '!' !in open && '!' !in close
    requires d != '!' && d !in open && d !in close
    ensures Count(RunBangPass(s, h, open, close), d) == Count(s, d)
    decreases |s|
  {
    if s == [] {
    } else if RunBangAt(s, h) {
      var k := WordRun(s);
      var tail := RunBangPass(s[k + 1..], h, open, close);
      RunBangPassCounts(s[k + 1..], h, open, close, d);
      CountWrap(open, s[..k], close, tail, d);
      CountDrop(s, k, d);
    } else {
      var tail := RunBangPass(s[1..], h, open, close);
      RunBangPassCounts(s[1..], h, open, close, d);
      RunBangPassSkip(s, h, open, close);
      assert s == [s[0]] + s[1..];
      CountConcat([s[0]], s[1..], d);
      CountConcat([s[0]], tail, d);
    }
  }

  /** Wrapping a piece in characters other than `d` adds no `d`. */
  lemma CountWrap(open: string, x: string, close: string, tail: string, d: char)
    requires d !in open && d !in close
    ensures Count(open + x + close + tail, d) == Count(x, d) + Count(tail, d)
  {
    CountConcat(open + x + close, tail, d);
    CountConcat(open + x, close, d);
    CountConcat(open, x, d);
    CountZero(open, d);
    CountZero(close, d);
  }

  lemma CountCons(s: string, d: char)
    requires s != []
    ensures Count(s, d) == Count([s[0]], d) + Count(s[1..], d)
  {
    assert Count([s[0]], d) == (if s[0] == d then 1 else 0) + Count([s[0]][1..], d);
    assert [s[0]][1..] == [];
  }

  /** Dropping the character at `k`, which is not `d`, keeps the number of `d`. */
  lemma CountDrop(s: string, k: nat, d: char)
    requires k < |s| && s[k] != d
    ensures Count(s, d) == Count(s[..k], d) + Count(s[k + 1..], d)
  {
    assert s == s[..k] + [s[k]] + s[k + 1..];
    CountConcat(s[..k] + [s[k]], s[k + 1..], d);
    CountConcat(s[..k], [s[k]], d);
  }

  // ---------------------------------------------------------------------------
  // NOT on a parenthesised group.

  predicate IsParen(c: char) { c == '(' || c == ')' }

  /** Length of the longest prefix of `s` without parentheses: a greedy `[^()]*`. */
  function NonParenRun(s: string): (m: nat)
    ensures m <= |s|
    ensures forall i :: 0 <= i < m ==> !IsParen(s[i])
    ensures m < |s| ==> IsParen(s[m])
  {
    if s == [] || IsParen(s[0]) then 0 else 1 + NonParenRun(s[1..])
  }

  /** Does `\([^()]+\)!` match at the front of `s`? Only the longest body can be
      followed by `)`, so greediness loses nothing. */
  predicate GroupBangAt(s: string) {
    |s| > 0 && s[0] == '(' &&
    var m := NonParenRun(s[1..]);
    1 <= m && m + 2 < |s| && s[m + 1] == ')' && s[m + 2] == '!'
  }

  /** `re.search(r"\([^()]+\)!", s)`. */
  predicate HasGroupBang(s: string) {
    |s| > 0 && (GroupBangAt(s) || HasGroupBang(s[1..]))
  }

  /** One `re.sub(r"(\([^()]+\))!", open + r"\1" + close, s)`: each innermost group
      followed by `!` is wrapped, and its `!` removed. A pass with a match removes
      at least one `!` and none adds any, which is why the loop around it stops. */
  function GroupPass(s: string, open: string, close: string): (r: string)
    requires '!' !in open && '!' !in close
    ensures Count(r, '!') <= Count(s, '!')
    ensures HasGroupBang(s) ==> Count(r, '!') < Count(s, '!')
    decreases |s|
  {
    if s == [] then []
    else if GroupBangAt(s) then
      var m := NonParenRun(s[1..]);
      var tail := GroupPass(s[m + 3..], open, close);
      assert s == s[..m + 2] + [s[m + 2]] + s[m + 3..];
      CountConcat(s[..m + 2] + [s[m + 2]], s[m + 3..], '!');
      CountConcat(s[..m + 2], [s[m + 2]], '!');
      CountConcat(open + s[..m + 2] + close, tail, '!');
      CountConcat(open + s[..m + 2], close, '!');
      CountConcat(open, s[..m + 2], '!');
      CountZero(open, '!');
      CountZero(close, '!');
      open + s[..m + 2] + close + tail
    else
      var tail := GroupPass(s[1..], open, close);
      assert s == [s[0]] + s[1..];
      CountConcat([s[0]], s[1..], '!');
      CountConcat([s[0]], tail, '!');
      [s[0]] + tail
  }

  /** `while re.search(...): s = re.sub(...)`, as a function: the loop's result. It
      always terminates, since every pass strictly lowers the number of `!`, and
      on exit no `(body)!` with a non-empty parenthesis-free body is left. */
  function ReduceGroups(s: string, open: string, close: string): (r: string)
    requires '!' !in open && '!' !in close
    ensures !HasGroupBang(r)
    ensures Count(r, '!') <= Count(s, '!')
    decreases Count(s, '!')
  {
    if HasGroupBang(s) then ReduceGroups(GroupPass(s, open, close), open, close) else s
  }

  /** Where a match starts, the group is wrapped and its `!` dropped. */
  lemma GroupPassWraps(s: string, open: string, close: string)
    requires '!' !in open && '!' !in close
    requires GroupBangAt(s)
    ensures var m := NonParenRun(s[1..]);
            GroupPass(s, open, close) == open + s[..m + 2] + close + GroupPass(s[m + 3..], open, close)
  {
  }

  /** Where no match starts, the first character is kept. */
  lemma GroupPassSkip(s: string, open: string, close: string)
    requires '!' !in open && '!' !in close
    requires s != [] && !GroupBangAt(s)
    ensures GroupPass(s, open, close) == [s[0]] + GroupPass(s[1..], open, close)
  {
  }

  lemma PrefixAbsent(s: string, n: nat, d: char)
    requires n <= |s| && d !in s
    ensures d !in s[..n]
  {
    assert forall i :: 0 <= i < n ==> s[..n][i] == s[i];
  }

  lemma {:induction false} GroupPassAbsent(s: string, open: string, close: string, d: char)
    requires '!' !in open && '!' !in close
    requires d !in s && d !in open && d !in close
    ensures d !in GroupPass(s, open, close)
  {
    if s == [] {
    } else if GroupBangAt(s) {
      var m := NonParenRun(s[1..]);
      var tail := GroupPass(s[m + 3..], open, close);
      PrefixAbsent(s[m + 3..] , 0, d);
      assert d !in s[m + 3..];
      GroupPassAbsent(s[m + 3..], open, close, d);
      GroupPassWraps(s, open, close);
      PrefixAbsent(s, m + 2, d);
      AbsentConcat(open, s[..m + 2], d);
      AbsentConcat(open + s[..m + 2], close, d);
      AbsentConcat(open + s[..m + 2] + close, tail, d);
    } else {
      assert d !in s[1..];
      GroupPassAbsent(s[1..], open, close, d);
      GroupPassSkip(s, open, close);
      AbsentConcat([s[0]], GroupPass(s[1..], open, close), d);
    }
  }

  lemma {:induction false} ReduceGroupsAbsent(s: string, open: string, close: string, d: char)
    requires '!' !in open && '!' !in close
    requires d !in s && d !in open && d !in close
    ensures d !in ReduceGroups(s, open, close)
    decreases Count(s, '!')
  {
    if HasGroupBang(s) {
      GroupPassAbsent(s, open, close, d);
      ReduceGroupsAbsent(GroupPass(s, open, close), open, close, d);
    }
  }

  /** Every character other than `!` and those of the replacement is kept by a group
      pass, as often as it occurred. */
  lemma {:induction false} GroupPassCounts(s: string, open: string, close: string, d: char)
    requires '!' !in open && '!' !in close
    requires d != '!' && d !in open && d !in close
    ensures Count(GroupPass(s, open, close), d) == Count(s, d)
    decreases |s|
  {
    if s == [] {
    } else if GroupBangAt(s) {
      var m := NonParenRun(s[1..]);
      var rest := s[m + 3..];
      GroupPassCounts(rest, open, close, d);
      GroupPassWraps(s, open, close);
      CountWrap(open, s[..m + 2], close, GroupPass(rest, open, close), d);
      CountDrop(s, m + 2, d);
    } else {
      GroupPassCounts(s[1..], open, close, d);
      GroupPassSkip(s, open, close);
      CountCons(s, d);
      CountCons([s[0]] + GroupPass(s[1..], open, close), d);
    }
  }

  /** The whole group loop keeps every other character as often as it occurred. */
  lemma {:induction false} ReduceGroupsCounts(s: string, open: string, close: string, d: char)
    requires '!' !in open && '!' !in close
    requires d != '!' && d !in open && d !in close
    ensures Count(ReduceGroups(s, open, close), d) == Count(s, d)
    decreases Count(s, '!')
  {
    if HasGroupBang(s) {
      GroupPassCounts(s, open, close, d);
      ReduceGroupsCounts(GroupPass(s, open, close), open, close, d);
    }
  }

  /** A piece in which no group match can start, or be completed by what follows:
      every `(` has a parenthesis after it inside the piece, no `)` is directly
      followed by `!`, and the piece does not end in `)`. */
  predicate Sealed(q: string) {
    (q == [] || q[|q| - 1] != ')') &&
    (forall i :: 0 <= i < |q| && q[i] == '(' ==> NonParenRun(q[i + 1..]) < |q| - i - 1) &&
    (forall i :: 0 < i < |q| && q[i] == '!' ==> q[i - 1] != ')')
  }

  lemma SealedTail(q: string)
    requires q != [] && Sealed(q)
    ensures Sealed(q[1..])
  {
    var r := q[1..];
    forall i | 0 <= i < |r| && r[i] == '('
      ensures NonParenRun(r[i + 1..]) < |r| - i - 1
    {
      assert q[i + 1] == '(';
      assert r[i + 1..] == q[i + 2..];
    }
    forall i | 0 < i < |r| && r[i] == '!'
      ensures r[i - 1] != ')'
    {
      assert q[i + 1] == '!';
    }
  }

  lemma {:induction false} NonParenRunConcat(a: string, b: string)
    requires NonParenRun(a) < |a|
    ensures NonParenRun(a + b) == NonParenRun(a)
  {
    if !IsParen(a[0]) {
      assert (a + b)[1..] == a[1..] + b;
      NonParenRunConcat(a[1..], b);
    }
  }

  /** No group match starts at the front of a sealed piece, whatever follows it. */
  lemma SealedNoMatch(q: string, u: string)
    requires q != [] && Sealed(q)
    ensures !GroupBangAt(q + u)
  {
    var s := q + u;
    if q[0] == '(' {
      var m0 := NonParenRun(q[1..]);
      assert q[1..] == q[0 + 1..];
      assert s[1..] == q[1..] + u;
      NonParenRunConcat(q[1..], u);
      assert m0 + 1 < |q| && s[m0 + 1] == q[m0 + 1];
      if m0 + 2 < |q| {
        assert s[m0 + 2] == q[m0 + 2];
      }
    }
  }

  /** A sealed piece passes through a group pass unchanged, and hides no match. */
  lemma {:induction false} GroupPassPrefix(q: string, u: string, open: string, close: string)
    requires '!' !in open && '!' !in close
    requires Sealed(q)
    ensures GroupPass(q + u, open, close) == q + GroupPass(u, open, close)
    ensures HasGroupBang(q + u) == HasGroupBang(u)
  {
    if q == [] {
      assert q + u == u;
    } else {
      var s := q + u;
      SealedNoMatch(q, u);
      GroupPassSkip(s, open, close);
      SealedTail(q);
      assert s[1..] == q[1..] + u;
      GroupPassPrefix(q[1..], u, open, close);
      ConsConcat(q, GroupPass(u, open, close));
      assert GroupPass(s, open, close) == [q[0]] + (q[1..] + GroupPass(u, open, close));
      assert HasGroupBang(s) == HasGroupBang(s[1..]);
    }
  }

  /** The group loop leaves a sealed piece in front alone. */
  lemma {:induction false} ReduceGroupsPrefix(q: string, u: string, open: string, close: string)
    requires '!' !in open && '!' !in close
    requires Sealed(q)
    ensures ReduceGroups(q + u, open, close) == q + ReduceGroups(u, open, close)
    decreases Count(u, '!')
  {
    GroupPassPrefix(q, u, open, close);
    if q == [] {
      assert q + u == u;
    }
    if HasGroupBang(u) {
      ReduceGroupsPrefix(q, GroupPass(u, open, close), open, close);
    }
  }
}
