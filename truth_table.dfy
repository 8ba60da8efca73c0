/** The truth-table generator: the notation is rewritten into a Python expression
    (`not`, `^`, `and`, `or`), which is evaluated once for every assignment of the
    variables, in binary-counter order; a row whose evaluation fails shows the
    error in place of its result. The evaluation itself is Python's `eval` and is
    a parameter here. */
module TruthTable {
  import opened Text
  import opened Rewrite

  // ---------------------------------------------------------------------------
  // Rewriting the notation into Python.

  /** The rewrites of `truth_table`, in order. */
  function PythonText(expr: string): string
  {
    var s1 := ReplaceChar(expr, ' ', "");
    var s2 := RunBangPass(s1, AnyWordHead, "(not ", ")");
    Translated(ReduceGroups(s2, "(not ", ")"))
  }

  /** The evaluated text holds no `~`, `*` or `+`. */
  lemma PythonTextShape(expr: string)
    ensures '~' !in PythonText(expr) && '*' !in PythonText(expr) && '+' !in PythonText(expr)
  {
    var s1 := ReplaceChar(expr, ' ', "");
    var s2 := RunBangPass(s1, AnyWordHead, "(not ", ")");
    var s3 := ReduceGroups(s2, "(not ", ")");
    var t1 := ReplaceChar(s3, '~', "^");
    var t2 := ReplaceChar(t1, '*', " and ");
    ReplaceCharRemoves(s3, '~', "^");
    ReplaceCharRemoves(t1, '*', " and ");
    ReplaceCharRemoves(t2, '+', " or ");
    ReplaceCharKeepsAbsent(t1, '*', " and ", '~');
    ReplaceCharKeepsAbsent(t2, '+', " or ", '~');
    ReplaceCharKeepsAbsent(t2, '+', " or ", '*');
  }

  /** The bare NOT wraps the whole run of word characters before `!`, digits
      included: `1!` becomes `(not 1)`, `A1!` becomes `(not A1)`. */
  lemma NotWrapsRun(x: string, q: string)
    requires x != [] && AllWord(x)
    ensures RunBangPass(x + "!" + q, AnyWordHead, "(not ", ")") ==
            "(not " + x + ")" + RunBangPass(q, AnyWordHead, "(not ", ")")
  {
    RunBangWraps(x, q, AnyWordHead, "(not ", ")");
  }

  /** A prefix `!`, as in the docstring's `A*!B`, is no operator of the notation: no
      rewrite touches a `!` that follows an operator, and it reaches `eval` as it is,
      where the text in front of it is translated on its own. The piece in front holds
      no `!` and no space, every `(` in it is closed in it, and it does not end in a
      word character or `)`. */
  lemma LeadingBangKept(p: string, t: string)
    requires '!' !in p && ' ' !in p
    requires p == [] || (!IsWordChar(p[|p| - 1]) && p[|p| - 1] != ')')
    requires forall i :: 0 <= i < |p| && p[i] == '(' ==> NonParenRun(p[i + 1..]) < |p| - i - 1
    ensures PythonText(p + "!" + t) == PythonText(p) + "!" + PythonText(t)
  {
    var t1 := ReplaceChar(t, ' ', "");
    SpacesAroundBang(p, t);
    var u := BangPassAfter(p, t1);
    SealedWithBang(p);
    ReduceGroupsPrefix(p + "!", u, "(not ", ")");
    FrontAlone(p);
    BangTranslated(p, ReduceGroups(u, "(not ", ")"));
  }

  lemma SpacesAroundBang(p: string, t: string)
    requires ' ' !in p
    ensures ReplaceChar(p + "!" + t, ' ', "") == p + ("!" + ReplaceChar(t, ' ', ""))
  {
    var t1 := ReplaceChar(t, ' ', "");
    ConcatAssoc(p, "!", t);
    ReplaceCharConcat(p, "!" + t, ' ', "");
    ReplaceCharAbsent(p, ' ', "");
    ReplaceCharConcat("!", t, ' ', "");
    assert ReplaceChar("!", ' ', "") == "!";
  }

  /** The bare-NOT pass keeps the piece in front and the `!`. */
  lemma BangPassAfter(p: string, t1: string) returns (u: string)
    requires '!' !in p
    requires p == [] || !IsWordChar(p[|p| - 1])
    ensures u == RunBangPass(t1, AnyWordHead, "(not ", ")")
    ensures RunBangPass(p + ("!" + t1), AnyWordHead, "(not ", ")") == (p + "!") + u
  {
    var w := "!" + t1;
    RunBangPassPrefix(p, w, AnyWordHead, "(not ", ")");
    assert w[0] == '!' && w[1..] == t1;
    assert !RunBangAt(w, AnyWordHead);
    RunBangPassSkip(w, AnyWordHead, "(not ", ")");
    u := RunBangPass(t1, AnyWordHead, "(not ", ")");
    assert [w[0]] == "!";
    ConcatAssoc(p, "!", u);
  }

  lemma SealedWithBang(p: string)
    requires '!' !in p
    requires p == [] || (!IsWordChar(p[|p| - 1]) && p[|p| - 1] != ')')
    requires forall i :: 0 <= i < |p| && p[i] == '(' ==> NonParenRun(p[i + 1..]) < |p| - i - 1
    ensures Sealed(p + "!")
  {
    var q := p + "!";
    forall i | 0 <= i < |q| && q[i] == '('
      ensures NonParenRun(q[i + 1..]) < |q| - i - 1
    {
      assert i < |p| && p[i] == '(';
      NonParenRunConcat(p[i + 1..], "!");
      assert q[i + 1..] == p[i + 1..] + "!";
    }
  }

  /** The piece in front, translated on its own, goes through the passes unchanged. */
  lemma FrontAlone(p: string)
    requires '!' !in p && ' ' !in p
    requires p == [] || (!IsWordChar(p[|p| - 1]) && p[|p| - 1] != ')')
    requires forall i :: 0 <= i < |p| && p[i] == '(' ==> NonParenRun(p[i + 1..]) < |p| - i - 1
    ensures PythonText(p) == Translated(p)
  {
    ReplaceCharAbsent(p, ' ', "");
    RunBangPassPrefix(p, [], AnyWordHead, "(not ", ")");
    assert p + [] == p;
    assert Sealed(p);
    ReduceGroupsPrefix(p, [], "(not ", ")");
    assert ReduceGroups([], "(not ", ")") == [];
  }

  /** The final character translations work piece by piece and keep a `!`. */
  lemma BangTranslated(p: string, s3: string)
    ensures Translated(p + "!" + s3) == Translated(p) + "!" + Translated(s3)
  {
    TranslatedConcat(p + "!", s3);
    TranslatedConcat(p, "!");
    assert Translated("!") == "!";
  }

  /** XOR, AND and OR become `^`, ` and ` and ` or `. */
  function Translated(s: string): string {
    ReplaceChar(ReplaceChar(ReplaceChar(s, '~', "^"), '*', " and "), '+', " or ")
  }

  lemma TranslatedConcat(a: string, b: string)
    ensures Translated(a + b) == Translated(a) + Translated(b)
  {
    ReplaceCharConcat(a, b, '~', "^");
    ReplaceCharConcat(ReplaceChar(a, '~', "^"), ReplaceChar(b, '~', "^"), '*', " and ");
    ReplaceCharConcat(ReplaceChar(ReplaceChar(a, '~', "^"), '*', " and "),
                      ReplaceChar(ReplaceChar(b, '~', "^"), '*', " and "), '+', " or ");
  }

  /** `truth_table`'s rewriting, step by step, with the loop as the source has it. */
  method ToPython(expr: string) returns (py: string)
    ensures py == PythonText(expr)
  {
    var s := ReplaceChar(expr, ' ', "");
    s := RunBangPass(s, AnyWordHead, "(not ", ")");
    ghost var afterBang := s;
    while HasGroupBang(s)
      invariant ReduceGroups(s, "(not ", ")") == ReduceGroups(afterBang, "(not ", ")")
      decreases Count(s, '!')
    {
      s := GroupPass(s, "(not ", ")");
    }
    s := ReplaceChar(s, '~', "^");
    s := ReplaceChar(s, '*', " and ");
    s := ReplaceChar(s, '+', " or ");
    py := s;
  }

  // ---------------------------------------------------------------------------
  // The assignments.

  function Pow2(n: nat): (p: nat)
    ensures p >= 1
  {
    if n == 0 then 1 else 2 * Pow2(n - 1)
  }

  /** `itertools.product([0, 1], repeat=n)`: every 0/1 sequence of length `n`, the
      first position varying slowest. */
  function Product(n: nat): (combos: seq<seq<int>>)
    ensures |combos| == Pow2(n)
  {
    if n == 0 then [[]]
    else
      var rest := Product(n - 1);
      seq(|rest|, k requires 0 <= k < |rest| => [0] + rest[k]) +
      seq(|rest|, k requires 0 <= k < |rest| => [1] + rest[k])
  }

  /** The `n` binary digits of `k`, most significant first. */
  function Bits(k: nat, n: nat): (b: seq<int>)
    ensures |b| == n
    ensures forall i :: 0 <= i < n ==> b[i] == 0 || b[i] == 1
  {
    if n == 0 then [] else [(k / Pow2(n - 1)) % 2] + Bits(k % Pow2(n - 1), n - 1)
  }

  /** The number a sequence of binary digits stands for, most significant first. */
  function Value(b: seq<int>): int
  {
    if b == [] then 0 else b[0] * Pow2(|b| - 1) + Value(b[1..])
  }

  /** Row `k` of the product is `k` written in binary: the first variable is the
      high-order bit. */
  lemma {:induction false} ProductCounts(n: nat, k: nat)
    requires k < Pow2(n)
    ensures Product(n)[k] == Bits(k, n)
  {
    if n > 0 {
      var half := Pow2(n - 1);
      var rest := Product(n - 1);
      assert |rest| == half;
      if k < half {
        ProductCounts(n - 1, k);
        assert Product(n)[k] == [0] + rest[k];
        BitsLow(k, n);
      } else {
        ProductCounts(n - 1, k - half);
        assert Product(n)[k] == [1] + rest[k - half];
        BitsHigh(k, n);
      }
    }
  }

  /** The digits of `k` stand for `k`. */
  lemma {:induction false} BitsValue(k: nat, n: nat)
    requires k < Pow2(n)
    ensures Value(Bits(k, n)) == k
  {
    if n > 0 {
      var half := Pow2(n - 1);
      var b := Bits(k, n);
      if k < half {
        BitsLow(k, n);
        BitsValue(k, n - 1);
        assert b[1..] == Bits(k, n - 1);
      } else {
        BitsHigh(k, n);
        BitsValue(k - half, n - 1);
        assert b[1..] == Bits(k - half, n - 1);
      }
    }
  }

  /** Below half the range the top digit is 0, from half on it is 1. */
  lemma BitsLow(k: nat, n: nat)
    requires n > 0 && k < Pow2(n - 1)
    ensures Bits(k, n) == [0] + Bits(k, n - 1)
  {
    var half := Pow2(n - 1);
    DivLow(k, half);
    assert Bits(k, n) == [(k / half) % 2] + Bits(k % half, n - 1);
  }

  lemma DivLow(k: nat, half: nat)
    requires k < half
    ensures k / half == 0 && k % half == k
  {
  }

  lemma BitsHigh(k: nat, n: nat)
    requires n > 0 && Pow2(n - 1) <= k < Pow2(n)
    ensures Bits(k, n) == [1] + Bits(k - Pow2(n - 1), n - 1)
  {
    DivHalf(k, Pow2(n - 1));
  }

  lemma DivHalf(k: nat, half: nat)
    requires half >= 1 && half <= k < 2 * half
    ensures k / half == 1 && k % half == k - half
  {
  }

  /** `{var: bool(val) for var, val in zip(variables, combo)}`: a variable listed twice
      takes its last value. */
  function Env(vars: seq<string>, combo: seq<int>): (env: map<string, bool>)
    requires |vars| == |combo|
    ensures env.Keys == set v | v in vars
    decreases |vars|
  {
    if vars == [] then map[]
    else Env(vars[..|vars| - 1], combo[..|combo| - 1])[vars[|vars| - 1] := combo[|combo| - 1] != 0]
  }

  /** Each variable is bound to its value in the row, the last listing deciding. */
  lemma {:induction false} EnvBinds(vars: seq<string>, combo: seq<int>, i: nat)
    requires |vars| == |combo| && i < |vars|
    requires forall j :: i < j < |vars| ==> vars[j] != vars[i]
    ensures Env(vars, combo)[vars[i]] == (combo[i] != 0)
    decreases |vars|
  {
    if i < |vars| - 1 {
      EnvBinds(vars[..|vars| - 1], combo[..|combo| - 1], i);
    }
  }

  // ---------------------------------------------------------------------------
  // The table.

  /** What `eval` gives: a value, read by `bool`, or an exception and its message. */
  datatype Evaluation = Truthy(b: bool) | Failed(message: string)

  /** `eval(py_expr, {"__builtins__": None}, env)`. */
  type Evaluator = (string, map<string, bool>) -> Evaluation

  /** `result_bit`: `int(bool(result))` or the error text. */
  function Cell(v: Evaluation): (c: string)
    ensures v.Truthy? <==> (c == "0" || c == "1")
    ensures v.Truthy? ==> (c == "1" <==> v.b)
    ensures v.Failed? ==> |c| >= 7 && c[..7] == "Error: " && c[7..] == v.message
  {
    match v
    case Truthy(b) => if b then "1" else "0"
    case Failed(m) => "Error: " + m
  }

  function Digit(v: int): string
    requires v == 0 || v == 1
  {
    if v == 0 then "0" else "1"
  }

  function Digits(combo: seq<int>): (ds: seq<string>)
    requires forall i :: 0 <= i < |combo| ==> combo[i] == 0 || combo[i] == 1
    ensures |ds| == |combo|
    ensures forall i :: 0 <= i < |combo| ==> ds[i] == Digit(combo[i])
  {
    seq(|combo|, i requires 0 <= i < |combo| => Digit(combo[i]))
  }

  function Header(expr: string, variables: seq<string>): string {
    Join("  ", variables) + "  |  " + expr
  }

  /** One row: the assignment's digits, the bar and the result. */
  function Row(combo: seq<int>, v: Evaluation): string
    requires forall i :: 0 <= i < |combo| ==> combo[i] == 0 || combo[i] == 1
  {
    Join("  ", Digits(combo)) + "  |  " + Cell(v)
  }

  /** The list `lines` at the end of `truth_table`. */
  function TableLines(expr: string, variables: seq<string>, eval: Evaluator): (lines: seq<string>)
  {
    var header := Header(expr, variables);
    var n := |variables|;
    [header, Repeat('-', |header|)] +
    seq(Pow2(n), k requires 0 <= k < Pow2(n) =>
      Row(Bits(k, n), eval(PythonText(expr), Env(variables, Bits(k, n)))))
  }

  /** `truth_table`: the rewriting, then one appended line per assignment of the
      product. */
  method Table(expr: string, variables: seq<string>, eval: Evaluator) returns (table: string)
    ensures table == Join("\n", TableLines(expr, variables, eval))
  {
    var py := ToPython(expr);
    var header := Join("  ", variables) + "  |  " + expr;
    var lines := [header, Repeat('-', |header|)];
    var combos := Product(|variables|);
    var k := 0;
    while k < |combos|
      invariant 0 <= k <= |combos|
      invariant |lines| == 2 + k
      invariant lines[0] == Header(expr, variables)
      invariant lines[1] == Repeat('-', |header|)
      invariant RowsUpTo(lines, k, variables, py, eval)
    {
      ProductCounts(|variables|, k);
      var combo := combos[k];
      var env := Env(variables, combo);
      var result := eval(py, env);
      var values := Join("  ", Digits(combo));
      var line := values + "  |  " + Cell(result);
      assert line == Row(Bits(k, |variables|), eval(py, Env(variables, Bits(k, |variables|))));
      RowsUpToAppend(lines, k, variables, py, eval, line);
      lines := lines + [line];
      k := k + 1;
    }
    TableLinesAre(expr, variables, eval, lines);
    table := Join("\n", lines);
  }

  /** The first `k` rows after the two lines of head are those of the first `k`
      assignments. */
  ghost predicate RowsUpTo(lines: seq<string>, k: nat, variables: seq<string>, py: string, eval: Evaluator) {
    |lines| >= 2 + k &&
    forall j :: 0 <= j < k ==>
      lines[2 + j] == Row(Bits(j, |variables|), eval(py, Env(variables, Bits(j, |variables|))))
  }

  lemma RowsUpToAppend(lines: seq<string>, k: nat, variables: seq<string>, py: string, eval: Evaluator, line: string)
    requires RowsUpTo(lines, k, variables, py, eval) && |lines| == 2 + k
    requires line == Row(Bits(k, |variables|), eval(py, Env(variables, Bits(k, |variables|))))
    ensures RowsUpTo(lines + [line], k + 1, variables, py, eval)
    ensures (lines + [line])[0] == lines[0] && (lines + [line])[1] == lines[1]
  {
  }

  /** A list with the header, the separator and then row `k` at `2 + k` for every
      assignment is the list of table lines. */
  lemma TableLinesAre(expr: string, variables: seq<string>, eval: Evaluator, lines: seq<string>)
    requires |lines| == 2 + Pow2(|variables|)
    requires lines[0] == Header(expr, variables)
    requires lines[1] == Repeat('-', |Header(expr, variables)|)
    requires RowsUpTo(lines, Pow2(|variables|), variables, PythonText(expr), eval)
    ensures lines == TableLines(expr, variables, eval)
  {
    var t := TableLines(expr, variables, eval);
    assert |t| == |lines|;
    forall i | 0 <= i < |lines|
      ensures lines[i] == t[i]
    {
      if i >= 2 {
        var j := i - 2;
        assert lines[2 + j] == t[2 + j];
      }
    }
  }

  /** Two lines of head and one line per assignment: `2 + 2^n` lines. */
  lemma TableSize(expr: string, variables: seq<string>, eval: Evaluator)
    ensures |TableLines(expr, variables, eval)| == 2 + Pow2(|variables|)
  {
  }

  /** The header names the variables and repeats the expression as given, spaces and
      all; the separator is as long as the header and made of `-` only. */
  lemma TableHead(expr: string, variables: seq<string>, eval: Evaluator)
    ensures var lines := TableLines(expr, variables, eval);
            lines[0] == Join("  ", variables) + "  |  " + expr &&
            |lines[1]| == |lines[0]| &&
            forall i :: 0 <= i < |lines[1]| ==> lines[1][i] == '-'
  {
  }

  /** Row `k` shows the binary digits of `k`, and its result is the evaluation with
      every variable bound to its digit in the row. */
  lemma TableRow(expr: string, variables: seq<string>, eval: Evaluator, k: nat)
    requires k < Pow2(|variables|)
    ensures var lines := TableLines(expr, variables, eval);
            var combo := Bits(k, |variables|);
            Value(combo) == k && Product(|variables|)[k] == combo &&
            lines[2 + k] == Join("  ", Digits(combo)) + "  |  " + Cell(eval(PythonText(expr), Env(variables, combo)))
  {
    ProductCounts(|variables|, k);
    BitsValue(k, |variables|);
  }

  /** A failing evaluation spoils only its own row: two evaluators that agree on every
      other assignment give tables that agree on every other line. */
  lemma RowIsolation(expr: string, variables: seq<string>, e1: Evaluator, e2: Evaluator, bad: nat)
    requires bad < Pow2(|variables|)
    requires forall k :: 0 <= k < Pow2(|variables|) && k != bad ==>
      e1(PythonText(expr), Env(variables, Bits(k, |variables|))) ==
      e2(PythonText(expr), Env(variables, Bits(k, |variables|)))
    ensures var l1 := TableLines(expr, variables, e1);
            var l2 := TableLines(expr, variables, e2);
            |l1| == |l2| &&
            forall i :: 0 <= i < |l1| && i != 2 + bad ==> l1[i] == l2[i]
  {
  }

  /** With no line break in the expression, the names or the error messages, the
      joined table has one break fewer than it has lines. */
  lemma TableBreaks(expr: string, variables: seq<string>, eval: Evaluator)
    requires '\n' !in expr
    requires forall i :: 0 <= i < |variables| ==> '\n' !in variables[i]
    requires forall env :: eval(PythonText(expr), env).Failed? ==> '\n' !in eval(PythonText(expr), env).message
    ensures Count(Join("\n", TableLines(expr, variables, eval)), '\n') == 1 + Pow2(|variables|)
  {
    var lines := TableLines(expr, variables, eval);
    LinesNoBreak(expr, variables, eval);
    JoinCount("\n", lines, '\n');
    assert Count("\n", '\n') == 1;
    TableSize(expr, variables, eval);
  }

  lemma LinesNoBreak(expr: string, variables: seq<string>, eval: Evaluator)
    requires '\n' !in expr
    requires forall i :: 0 <= i < |variables| ==> '\n' !in variables[i]
    requires forall env :: eval(PythonText(expr), env).Failed? ==> '\n' !in eval(PythonText(expr), env).message
    ensures forall i :: 0 <= i < |TableLines(expr, variables, eval)| ==> '\n' !in TableLines(expr, variables, eval)[i]
  {
    var lines := TableLines(expr, variables, eval);
    HeaderNoBreak(expr, variables);
    assert lines[0] == Header(expr, variables);
    assert lines[1] == Repeat('-', |Header(expr, variables)|);
    forall i | 2 <= i < |lines|
      ensures '\n' !in lines[i]
    {
      LineNoBreak(expr, variables, eval, i - 2);
    }
  }

  lemma LineNoBreak(expr: string, variables: seq<string>, eval: Evaluator, k: nat)
    requires k < Pow2(|variables|)
    requires forall env :: eval(PythonText(expr), env).Failed? ==> '\n' !in eval(PythonText(expr), env).message
    ensures '\n' !in TableLines(expr, variables, eval)[2 + k]
  {
    var combo := Bits(k, |variables|);
    var v := eval(PythonText(expr), Env(variables, combo));
    TableLineIs(expr, variables, eval, k);
    RowNoBreak(combo, v);
  }

  lemma TableLineIs(expr: string, variables: seq<string>, eval: Evaluator, k: nat)
    requires k < Pow2(|variables|)
    ensures TableLines(expr, variables, eval)[2 + k] ==
            Row(Bits(k, |variables|), eval(PythonText(expr), Env(variables, Bits(k, |variables|))))
  {
  }

  lemma HeaderNoBreak(expr: string, variables: seq<string>)
    requires '\n' !in expr
    requires forall i :: 0 <= i < |variables| ==> '\n' !in variables[i]
    ensures '\n' !in Header(expr, variables)
  {
    JoinAbsent("  ", variables, '\n');
    AbsentConcat(Join("  ", variables), "  |  ", '\n');
    AbsentConcat(Join("  ", variables) + "  |  ", expr, '\n');
  }

  lemma RowNoBreak(combo: seq<int>, v: Evaluation)
    requires forall i :: 0 <= i < |combo| ==> combo[i] == 0 || combo[i] == 1
    requires v.Failed? ==> '\n' !in v.message
    ensures '\n' !in Row(combo, v)
  {
    var ds := Digits(combo);
    forall i | 0 <= i < |ds|
      ensures '\n' !in ds[i]
    {
      assert ds[i] == Digit(combo[i]);
    }
    JoinAbsent("  ", ds, '\n');
    var cell := Cell(v);
    if v.Failed? {
      AbsentConcat("Error: ", v.message, '\n');
    }
    AbsentConcat(Join("  ", ds), "  |  ", '\n');
    AbsentConcat(Join("  ", ds) + "  |  ", cell, '\n');
  }
}
