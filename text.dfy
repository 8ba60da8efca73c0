/** Character classes, counting, replacing and joining over strings, and Python's
    ordering of strings; shared by the two notation pipelines. */
module Text {

  /** The `\w` class, read as ASCII `[A-Za-z0-9_]`. */
  predicate IsWordChar(c: char) {
    ('A' <= c <= 'Z') || ('a' <= c <= 'z') || ('0' <= c <= '9') || c == '_'
  }

  /** The `[A-Za-z_]` class: a character that may start an identifier. */
  predicate IsIdentStart(c: char) {
    ('A' <= c <= 'Z') || ('a' <= c <= 'z') || c == '_'
  }

  predicate AllWord(s: string) {
    forall i :: 0 <= i < |s| ==> IsWordChar(s[i])
  }

  /** An identifier in the sense of `[A-Za-z_]\w*`. */
  predicate IsIdentifier(s: string) {
    |s| > 0 && IsIdentStart(s[0]) && AllWord(s)
  }

  /** Length of the longest prefix of `s` made of word characters: a greedy `\w*`. */
  function WordRun(s: string): (k: nat)
    ensures k <= |s|
    ensures AllWord(s[..k])
    ensures k < |s| ==> !IsWordChar(s[k])
  {
    if s == [] || !IsWordChar(s[0]) then 0
    else
      var k' := WordRun(s[1..]);
      assert s[..1 + k'] == [s[0]] + s[1..][..k'];
      1 + k'
  }

  /** A word followed by a non-word character (or nothing) is exactly one run. */
  lemma {:induction false} WordRunOfWord(x: string, z: string)
    requires AllWord(x)
    requires z == [] || !IsWordChar(z[0])
    ensures WordRun(x + z) == |x|
  {
    if x != [] {
      assert (x + z)[1..] == x[1..] + z;
      WordRunOfWord(x[1..], z);
    }
  }

  /** A run that ends inside `x` is not lengthened by anything appended to `x`. */
  lemma {:induction false} WordRunPrefix(x: string, z: string)
    requires WordRun(x) < |x|
    ensures WordRun(x + z) == WordRun(x)
  {
    if IsWordChar(x[0]) {
      assert (x + z)[1..] == x[1..] + z;
      WordRunPrefix(x[1..], z);
    }
  }

  /** A text ending in a non-word character is not one run. */
  lemma {:induction false} WordRunEndsBefore(p: string)
    requires p != [] && !IsWordChar(p[|p| - 1])
    ensures WordRun(p) < |p|
  {
    if |p| > 1 && IsWordChar(p[0]) {
      WordRunEndsBefore(p[1..]);
    }
  }

  /** A run of word characters contains no character outside the class. */
  lemma AllWordExcludes(x: string, c: char)
    requires AllWord(x) && !IsWordChar(c)
    ensures c !in x
  {
    forall i | 0 <= i < |x| ensures x[i] != c {
    }
  }

  /** Number of occurrences of `c` in `s`. */
  function Count(s: string, c: char): (n: nat)
    ensures n <= |s|
  {
    if s == [] then 0 else (if s[0] == c then 1 else 0) + Count(s[1..], c)
  }

  /** `c` does not occur exactly when it is counted zero times. */
  lemma {:induction false} CountZero(s: string, c: char)
    ensures Count(s, c) == 0 <==> c !in s
  {
    if s != [] {
      CountZero(s[1..], c);
      assert s == [s[0]] + s[1..];
    }
  }

  lemma {:induction false} CountConcat(a: string, b: string, c: char)
    ensures Count(a + b, c) == Count(a, c) + Count(b, c)
  {
    if a == [] {
      assert a + b == b;
    } else {
      assert (a + b)[1..] == a[1..] + b;
      CountConcat(a[1..], b, c);
    }
  }

  /** `s.replace(c, w)`: every occurrence of the character `c` becomes `w`. */
  function ReplaceChar(s: string, c: char, w: string): (r: string)
  {
    if s == [] then [] else (if s[0] == c then w else [s[0]]) + ReplaceChar(s[1..], c, w)
  }

  /** Replacing is applied piece by piece, so the order of all characters is kept. */
  lemma {:induction false} ReplaceCharConcat(a: string, b: string, c: char, w: string)
    ensures ReplaceChar(a + b, c, w) == ReplaceChar(a, c, w) + ReplaceChar(b, c, w)
  {
    if a == [] {
      assert a + b == b;
    } else {
      assert (a + b)[1..] == a[1..] + b;
      ReplaceCharConcat(a[1..], b, c, w);
    }
  }

  /** Every character `d` other than `c` that `w` does not bring is kept, as often as it
      occurred. */
  lemma {:induction false} ReplaceCharCounts(s: string, c: char, w: string, d: char)
    requires d != c && d !in w
    ensures Count(ReplaceChar(s, c, w), d) == Count(s, d)
  {
    if s != [] {
      ReplaceCharCounts(s[1..], c, w, d);
      var head := if s[0] == c then w else [s[0]];
      CountZero(w, d);
      CountConcat(head, ReplaceChar(s[1..], c, w), d);
    }
  }

  /** Replacing `c` by a text without `c` leaves no `c` behind. */
  lemma {:induction false} ReplaceCharRemoves(s: string, c: char, w: string)
    requires c !in w
    ensures c !in ReplaceChar(s, c, w)
  {
    if s != [] {
      ReplaceCharRemoves(s[1..], c, w);
    }
  }

  /** A character other than `c` that occurs in neither `s` nor `w` does not occur in
      the result. */
  lemma {:induction false} ReplaceCharKeepsAbsent(s: string, c: char, w: string, d: char)
    requires d != c && d !in s && d !in w
    ensures d !in ReplaceChar(s, c, w)
  {
    if s != [] {
      ReplaceCharKeepsAbsent(s[1..], c, w, d);
    }
  }

  /** Replacing a character that does not occur changes nothing. */
  lemma {:induction false} ReplaceCharAbsent(s: string, c: char, w: string)
    requires c !in s
    ensures ReplaceChar(s, c, w) == s
  {
    if s != [] {
      ReplaceCharAbsent(s[1..], c, w);
    }
  }

  lemma ConcatAssoc<T>(a: seq<T>, b: seq<T>, c: seq<T>)
    ensures a + (b + c) == (a + b) + c
  {
  }

  /** `sep.join(parts)`. */
  function Join(sep: string, parts: seq<string>): (r: string)
  {
    if |parts| == 0 then ""
    else if |parts| == 1 then parts[0]
    else parts[0] + sep + Join(sep, parts[1..])
  }

  /** `ch * n`. */
  function Repeat(ch: char, n: nat): (r: string)
    ensures |r| == n
    ensures forall i :: 0 <= i < n ==> r[i] == ch
  {
    if n == 0 then "" else [ch] + Repeat(ch, n - 1)
  }

  /** Joining with a separator that holds `c` once, parts that do not hold it: `c`
      occurs once between each two parts and nowhere else. */
  lemma {:induction false} JoinCount(sep: string, parts: seq<string>, c: char)
    requires Count(sep, c) == 1
    requires forall i :: 0 <= i < |parts| ==> c !in parts[i]
    ensures |parts| > 0 ==> Count(Join(sep, parts), c) == |parts| - 1
    ensures |parts| == 0 ==> Count(Join(sep, parts), c) == 0
  {
    if |parts| >= 2 {
      var rest := Join(sep, parts[1..]);
      assert c !in parts[0];
      JoinCountStep(sep, parts[0], rest, c);
      assert forall i :: 0 <= i < |parts[1..]| ==> parts[1..][i] == parts[i + 1];
      JoinCount(sep, parts[1..], c);
    } else if |parts| == 1 {
      CountZero(parts[0], c);
    }
  }

  /** A character in neither the separator nor the parts is not in the joined text. */
  lemma {:induction false} JoinAbsent(sep: string, parts: seq<string>, c: char)
    requires c !in sep
    requires forall i :: 0 <= i < |parts| ==> c !in parts[i]
    ensures c !in Join(sep, parts)
  {
    if |parts| >= 2 {
      var rest := Join(sep, parts[1..]);
      assert forall i :: 0 <= i < |parts[1..]| ==> parts[1..][i] == parts[i + 1];
      JoinAbsent(sep, parts[1..], c);
      AbsentConcat(parts[0], sep, c);
      AbsentConcat(parts[0] + sep, rest, c);
    } else if |parts| == 1 {
      assert c !in parts[0];
    }
  }

  lemma AbsentConcat(a: string, b: string, c: char)
    requires c !in a && c !in b
    ensures c !in a + b
  {
    CountZero(a, c);
    CountZero(b, c);
    CountConcat(a, b, c);
    CountZero(a + b, c);
  }

  lemma JoinCountStep(sep: string, head: string, rest: string, c: char)
    requires c !in head
    ensures Count(head + sep + rest, c) == Count(sep, c) + Count(rest, c)
  {
    CountZero(head, c);
    CountConcat(head, sep, c);
    CountConcat(head + sep, rest, c);
  }

  // ---------------------------------------------------------------------------
  // Parenthesis depth, read left to right.

  /** Depth after reading `ch` at depth `d`; a `)` at depth 0 leaves it at 0. */
  function Step(d: nat, ch: char): nat {
    if ch == '(' then d + 1 else if ch == ')' && d > 0 then d - 1 else d
  }

  function Depth(s: string, d: nat): nat {
    if s == [] then d else Depth(s[1..], Step(d, s[0]))
  }

  /** Does some `)` of `s` find no open `(` when reading starts at depth `d`? */
  predicate Dips(s: string, d: nat) {
    s != [] && ((s[0] == ')' && d == 0) || Dips(s[1..], Step(d, s[0])))
  }

  predicate Balanced(s: string) {
    !Dips(s, 0) && Depth(s, 0) == 0
  }

  /** No `c` of `s` stands outside all parentheses, reading from depth `d`. */
  predicate TopLevelFree(s: string, c: char, d: nat) {
    s == [] || ((d > 0 || s[0] != c) && TopLevelFree(s[1..], c, Step(d, s[0])))
  }

  lemma {:induction false} DepthConcat(a: string, b: string, c: char, d: nat)
    ensures Depth(a + b, d) == Depth(b, Depth(a, d))
    ensures Dips(a + b, d) == (Dips(a, d) || Dips(b, Depth(a, d)))
    ensures TopLevelFree(a + b, c, d) == (TopLevelFree(a, c, d) && TopLevelFree(b, c, Depth(a, d)))
  {
    if a == [] {
      assert a + b == b;
    } else {
      assert (a + b)[1..] == a[1..] + b;
      DepthConcat(a[1..], b, c, Step(d, a[0]));
    }
  }

  /** Read one level deeper, a text that never dips stays inside parentheses. */
  lemma {:induction false} DepthShift(s: string, c: char, d: nat)
    requires !Dips(s, d)
    ensures !Dips(s, d + 1) && Depth(s, d + 1) == Depth(s, d) + 1
    ensures TopLevelFree(s, c, d + 1)
  {
    if s != [] {
      assert Step(d + 1, s[0]) == Step(d, s[0]) + 1;
      DepthShift(s[1..], c, Step(d, s[0]));
    }
  }

  lemma {:induction false} TopLevelFreeAbsent(s: string, c: char, d: nat)
    requires c !in s
    ensures TopLevelFree(s, c, d)
  {
    if s != [] {
      TopLevelFreeAbsent(s[1..], c, Step(d, s[0]));
    }
  }

  /** A text without parentheses does not change the depth. */
  lemma {:induction false} DepthParenFree(s: string, d: nat)
    requires '(' !in s && ')' !in s
    ensures !Dips(s, d) && Depth(s, d) == d
  {
    if s != [] {
      DepthParenFree(s[1..], d);
    }
  }

  /** Wrapping a balanced text in parentheses keeps it balanced and hides every one of
      its characters from the top level. */
  lemma Parenthesised(s: string, c: char)
    requires Balanced(s) && c != '(' && c != ')'
    ensures Balanced("(" + s + ")")
    ensures TopLevelFree("(" + s + ")", c, 0)
  {
    DepthShift(s, c, 0);
    DepthConcat("(" + s, ")", c, 0);
    DepthConcat("(", s, c, 0);
  }

  /** Joining balanced parts with a separator free of parentheses and of `c` gives a
      balanced text, free of `c` at the top level when every part is. */
  lemma {:induction false} JoinBalanced(sep: string, parts: seq<string>, c: char)
    requires '(' !in sep && ')' !in sep
    requires forall i :: 0 <= i < |parts| ==> Balanced(parts[i])
    ensures Balanced(Join(sep, parts))
    ensures c !in sep && (forall i :: 0 <= i < |parts| ==> TopLevelFree(parts[i], c, 0)) ==>
              TopLevelFree(Join(sep, parts), c, 0)
  {
    if |parts| == 0 {
    } else if |parts| >= 2 {
      JoinBalanced(sep, parts[1..], c);
      DepthParenFree(sep, 0);
      DepthConcat(parts[0] + sep, Join(sep, parts[1..]), c, 0);
      DepthConcat(parts[0], sep, c, 0);
      if c !in sep {
        TopLevelFreeAbsent(sep, c, 0);
      }
    }
  }

  // ---------------------------------------------------------------------------
  // Python's order on `str`: code point by code point, a proper prefix first.

  predicate Below(a: string, b: string)
  {
    if a == [] then b != []
    else if b == [] then false
    else if a[0] != b[0] then a[0] < b[0]
    else Below(a[1..], b[1..])
  }

  lemma {:induction false} BelowIrreflexive(a: string)
    ensures !Below(a, a)
  {
    if a != [] {
      BelowIrreflexive(a[1..]);
    }
  }

  lemma {:induction false} BelowTransitive(a: string, b: string, c: string)
    requires Below(a, b) && Below(b, c)
    ensures Below(a, c)
  {
    if a != [] && b != [] && c != [] && a[0] == b[0] && b[0] == c[0] {
      BelowTransitive(a[1..], b[1..], c[1..]);
    }
  }

  lemma {:induction false} BelowTotal(a: string, b: string)
    requires a != b
    ensures Below(a, b) || Below(b, a)
  {
    if a != [] && b != [] && a[0] == b[0] {
      assert a == [a[0]] + a[1..] && b == [b[0]] + b[1..];
      BelowTotal(a[1..], b[1..]);
    }
  }

  lemma BelowAsymmetric(a: string, b: string)
    requires Below(a, b)
    ensures !Below(b, a)
  {
    if Below(b, a) {
      BelowTransitive(a, b, a);
      BelowIrreflexive(a);
    }
  }

  predicate StrictlySorted(xs: seq<string>) {
    forall i, j :: 0 <= i < j < |xs| ==> Below(xs[i], xs[j])
  }

  /** Insert `x` into a strictly sorted list, keeping it strictly sorted and free of
      duplicates. */
  function Insert(xs: seq<string>, x: string): (r: seq<string>)
    requires StrictlySorted(xs)
    ensures StrictlySorted(r)
    ensures forall z :: z in r <==> z in xs || z == x
  {
    if xs == [] then [x]
    else if x == xs[0] then xs
    else if Below(x, xs[0]) then
      assert forall j :: 0 < j < |xs| ==> Below(x, xs[j]) by {
        forall j | 0 < j < |xs| ensures Below(x, xs[j]) {
          BelowTransitive(x, xs[0], xs[j]);
        }
      }
      [x] + xs
    else
      BelowTotal(x, xs[0]);
      var tail := Insert(xs[1..], x);
      assert forall z :: z in tail ==> Below(xs[0], z);
      [xs[0]] + tail
  }

  /** `sorted(set(xs))`. */
  function SortedUnique(xs: seq<string>): (r: seq<string>)
    ensures StrictlySorted(r)
    ensures forall z :: z in r <==> z in xs
  {
    if xs == [] then [] else Insert(SortedUnique(xs[1..]), xs[0])
  }

  /** A strictly sorted list is determined by its elements: `sorted(set(...))` has
      exactly one possible answer. */
  lemma {:induction false} StrictlySortedUnique(a: seq<string>, b: seq<string>)
    requires StrictlySorted(a) && StrictlySorted(b)
    requires forall z :: z in a <==> z in b
    ensures a == b
  {
    if a != [] && b != [] {
      assert a[0] in b && b[0] in a;
      var j :| 0 <= j < |b| && b[j] == a[0];
      var i :| 0 <= i < |a| && a[i] == b[0];
      if j != 0 && i != 0 {
        BelowAsymmetric(b[0], a[0]);
        assert false;
      }
      assert a[0] == b[0];
      forall z ensures z in a[1..] <==> z in b[1..] {
        if z in a[1..] {
          var i :| 0 <= i < |a[1..]| && a[1..][i] == z;
          assert Below(a[0], a[i + 1]);
          BelowIrreflexive(z);
          assert z in a;
          assert z in b;
          var k :| 0 <= k < |b| && b[k] == z;
          assert k != 0;
          assert b[1..][k - 1] == z;
        }
        if z in b[1..] {
          var i :| 0 <= i < |b[1..]| && b[1..][i] == z;
          assert Below(b[0], b[i + 1]);
          BelowIrreflexive(z);
          assert z in b;
          assert z in a;
          var k :| 0 <= k < |a| && a[k] == z;
          assert k != 0;
          assert a[1..][k - 1] == z;
        }
      }
      StrictlySortedUnique(a[1..], b[1..]);
      assert a == [a[0]] + a[1..] && b == [b[0]] + b[1..];
    } else {
      if a != [] { SharedNonEmpty(a, b); }
      if b != [] { SharedNonEmpty(b, a); }
    }
  }

  lemma SharedNonEmpty(a: seq<string>, b: seq<string>)
    requires a != []
    requires forall z :: z in a <==> z in b
    ensures b != []
  {
    assert a[0] in a;
  }
}
