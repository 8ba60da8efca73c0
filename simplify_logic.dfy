/** The simplifier's side of the digital-logic notation: `*` AND, `+` OR, postfix
    `!` NOT, infix `~` XOR, `0`/`1` constants. The notation is rewritten into
    the Python/SymPy operator syntax (`&`, `|`, `~`, `^`, `False`, `True`), parsed
    with the expression's variables, simplified, and rendered back. Parsing and
    simplification belong to SymPy and are parameters here. */
module SimplifyLogic {
  import opened Text
  import opened Rewrite

  /** A SymPy boolean expression of the kinds the renderer distinguishes. */
  datatype BoolExpr =
    | Const(value: bool)
    | Symbol(name: string)
    | Not(arg: BoolExpr)
    | And(args: seq<BoolExpr>)
    | Or(args: seq<BoolExpr>)
    | Xor(args: seq<BoolExpr>)

  /** A value, or the exception SymPy raised with its message. */
  datatype Result<T> = Ok(value: T) | Raised(message: string)

  /** `sp.sympify(text, locals=symbols)`, given the variable names. */
  type Sympify = (string, seq<string>) -> Result<BoolExpr>

  // ---------------------------------------------------------------------------
  // Rewriting the notation into SymPy's syntax.

  /** Is the `~` at `i` an infix XOR in the sense of `(?<=\w)~(?=\w|\()`? */
  predicate XorAt(s: string, i: nat)
    requires i < |s|
  {
    s[i] == '~' && i > 0 && IsWordChar(s[i - 1]) &&
    i + 1 < |s| && (IsWordChar(s[i + 1]) || s[i + 1] == '(')
  }

  /** `re.sub(r"(?<=\w)~(?=\w|\()", "^", s)`. The look-arounds inspect the original
      text, so each `~` is decided on its own neighbours. */
  function XorRewrite(s: string): (r: string)
    ensures |r| == |s|
  {
    seq(|s|, i requires 0 <= i < |s| => if XorAt(s, i) then '^' else s[i])
  }

  /** Only a `~` can change, and only into `^`; a `~` that follows `)` or precedes
      another `~` stays, and so the rewrite cannot be repeated to any effect. */
  lemma XorRewriteChanges(s: string)
    ensures forall i :: 0 <= i < |s| && XorRewrite(s)[i] != s[i] ==> s[i] == '~' && XorRewrite(s)[i] == '^'
    ensures forall i :: 0 < i < |s| && s[i] == '~' && s[i - 1] == ')' ==> XorRewrite(s)[i] == '~'
    ensures forall i :: 0 <= i < |s| - 1 && s[i] == '~' && s[i + 1] == '~' ==> XorRewrite(s)[i] == '~'
    ensures XorRewrite(XorRewrite(s)) == XorRewrite(s)
  {
    var r := XorRewrite(s);
    forall i | 0 <= i < |r|
      ensures XorAt(r, i) == (r[i] == '~' && XorAt(s, i))
    {
      if i > 0 {
        assert IsWordChar(r[i - 1]) == IsWordChar(s[i - 1]);
      }
      if i + 1 < |r| {
        assert IsWordChar(r[i + 1]) == IsWordChar(s[i + 1]);
        assert (r[i + 1] == '(') == (s[i + 1] == '(');
      }
    }
  }

  /** `re.sub(r"\b<c>\b", w, s)`: a `c` that is a word of its own becomes `w`.
      `afterWord` says whether the character before `s` is a word character. */
  function ReplaceStandalone(s: string, c: char, w: string, afterWord: bool): (r: string)
  {
    if s == [] then []
    else
      (if StandaloneHere(s, c, afterWord) then w else [s[0]]) +
      ReplaceStandalone(s[1..], c, w, IsWordChar(s[0]))
  }

  /** Does `s` start with a `c` bounded by `\b` on both sides? */
  predicate StandaloneHere(s: string, c: char, afterWord: bool) {
    |s| > 0 && s[0] == c && !afterWord && (|s| == 1 || !IsWordChar(s[1]))
  }

  predicate HasStandalone(s: string, c: char, afterWord: bool) {
    |s| > 0 && (StandaloneHere(s, c, afterWord) || HasStandalone(s[1..], c, IsWordChar(s[0])))
  }

  /** The constant rewrite replaces a digit by letters, so whether each position holds
      a word character is the same before and after. */
  lemma ReplaceStandaloneHead(s: string, c: char, w: string, afterWord: bool)
    requires IsWordChar(c) && w != [] && AllWord(w)
    requires s != []
    ensures ReplaceStandalone(s, c, w, afterWord) != []
    ensures IsWordChar(ReplaceStandalone(s, c, w, afterWord)[0]) == IsWordChar(s[0])
  {
  }

  /** Nothing inside a word hides a standalone `d` when the word has no `d`. */
  lemma {:induction false} StandaloneThroughWord(w: string, t: string, d: char, afterWord: bool)
    requires w != [] && AllWord(w) && d !in w
    ensures HasStandalone(w + t, d, afterWord) == HasStandalone(t, d, true)
  {
    assert (w + t)[1..] == w[1..] + t;
    if |w| > 1 {
      StandaloneThroughWord(w[1..], t, d, true);
    } else {
      assert w[1..] + t == t;
    }
  }

  /** After `re.sub(r"\b<c>\b", w, s)` no standalone `c` is left, and a standalone
      `d` appears only where there already was one: replacing `0` first and `1`
      second leaves neither as a word of its own. */
  lemma {:induction false} ReplaceStandaloneLeaves(s: string, c: char, w: string, d: char, afterWord: bool)
    requires IsWordChar(c) && w != [] && AllWord(w) && c !in w && d !in w
    requires d == c || !HasStandalone(s, d, afterWord)
    ensures !HasStandalone(ReplaceStandalone(s, c, w, afterWord), d, afterWord)
  {
    if s != [] {
      var tail := ReplaceStandalone(s[1..], c, w, IsWordChar(s[0]));
      ReplaceStandaloneLeaves(s[1..], c, w, d, IsWordChar(s[0]));
      if StandaloneHere(s, c, afterWord) {
        StandaloneThroughWord(w, tail, d, afterWord);
      } else {
        var r := [s[0]] + tail;
        assert r[1..] == tail;
        if s[0] == d && !afterWord && |s| > 1 {
          ReplaceStandaloneHead(s[1..], c, w, IsWordChar(s[0]));
        }
      }
    }
  }

  /** A word of two or more characters, or a word directly after another word
      character, is kept whole: a `0` or `1` inside `A0`, `x_1` or `0B` is no word
      of its own and stays as it is. */
  lemma {:induction false} ReplaceStandaloneKeepsWord(x: string, t: string, c: char, w: string, afterWord: bool)
    requires x != [] && AllWord(x) && (|x| >= 2 || afterWord)
    ensures ReplaceStandalone(x + t, c, w, afterWord) == x + ReplaceStandalone(t, c, w, true)
  {
    var s := x + t;
    assert s[0] == x[0];
    assert s[1..] == x[1..] + t;
    if |x| >= 2 {
      assert s[1] == x[1];
    }
    assert !StandaloneHere(s, c, afterWord);
    if |x| == 1 {
      assert x[1..] + t == t;
      assert x == [x[0]];
    } else {
      ReplaceStandaloneKeepsWord(x[1..], t, c, w, true);
      ConsConcat(x, ReplaceStandalone(t, c, w, true));
    }
  }

  /** A character that occurs in neither `s` nor `w` does not occur in the result. */
  lemma {:induction false} ReplaceStandaloneAbsent(s: string, c: char, w: string, d: char, afterWord: bool)
    requires d !in s && d !in w
    ensures d !in ReplaceStandalone(s, c, w, afterWord)
  {
    if s != [] {
      ReplaceStandaloneAbsent(s[1..], c, w, d, IsWordChar(s[0]));
    }
  }

  /** The rewrites of `digital_to_sympy` in order, before `sympify`. */
  function SympyText(expr: string): string
  {
    var s1 := ReplaceChar(expr, ' ', "");
    var s2 := RunBangPass(s1, IdentifierHead, "~(", ")");
    var s3 := ReduceGroups(s2, "~", "");
    var s4 := XorRewrite(s3);
    var s5 := ReplaceChar(ReplaceChar(s4, '*', "&"), '+', "|");
    ReplaceStandalone(ReplaceStandalone(s5, '0', "False", false), '1', "True", false)
  }

  /** A negated right operand of XOR hides the XOR: in `B~A!` the NOT becomes `~(A)`,
      giving `B~~(A)`; the group loop leaves the `B~~` in front alone, and neither `~`
      is followed by a word character or `(` and preceded by a word character, so
      both stay `~` in the text that reaches the XOR rewrite. The piece in front
      closes every `(` it opens. */
  lemma NotBlocksXor(p: string, x: string, q: string)
    requires '!' !in p && p != [] && IsWordChar(p[|p| - 1])
    requires forall i :: 0 <= i < |p| && p[i] == '(' ==> NonParenRun(p[i + 1..]) < |p| - i - 1
    requires IsIdentifier(x)
    ensures var r := RunBangPass(p + "~" + x + "!" + q, IdentifierHead, "~(", ")");
            r == p + "~~(" + x + ")" + RunBangPass(q, IdentifierHead, "~(", ")") &&
            XorRewrite(r)[|p|] == '~' && XorRewrite(r)[|p| + 1] == '~'
    ensures var g := ReduceGroups(RunBangPass(p + "~" + x + "!" + q, IdentifierHead, "~(", ")"), "~", "");
            |p| + 1 < |g| && XorRewrite(g)[|p|] == '~' && XorRewrite(g)[|p| + 1] == '~'
  {
    var tail := RunBangPass(q, IdentifierHead, "~(", ")");
    NotBangEncoding(p, x, q);
    var u := "(" + x + ")" + tail;
    TildesInFront(p, x, tail);
    SealedTildes(p);
    ReduceGroupsPrefix(p + "~~", u, "~", "");
    var g := (p + "~~") + ReduceGroups(u, "~", "");
    TildePairKept(g, |p|);
  }

  /** The NOT pass on `p~X!q`, for any front piece: `p~~(X)` follows, and the XOR
      rewrite applied to it keeps both `~`. */
  lemma NotBangEncoding(p: string, x: string, q: string)
    requires '!' !in p && p != [] && IsWordChar(p[|p| - 1])
    requires IsIdentifier(x)
    ensures var r := RunBangPass(p + "~" + x + "!" + q, IdentifierHead, "~(", ")");
            r == p + "~~(" + x + ")" + RunBangPass(q, IdentifierHead, "~(", ")") &&
            XorRewrite(r)[|p|] == '~' && XorRewrite(r)[|p| + 1] == '~'
  {
    var pt := p + "~";
    var rest := x + "!" + q;
    assert p + "~" + x + "!" + q == pt + rest;
    assert '!' !in pt;
    RunBangPassPrefix(pt, rest, IdentifierHead, "~(", ")");
    RunBangWraps(x, q, IdentifierHead, "~(", ")");
    var tail := RunBangPass(q, IdentifierHead, "~(", ")");
    NotEncodingAfterTilde(p, x, tail);
    TildePairKept(p + "~~(" + x + ")" + tail, |p|);
  }

  lemma TildesInFront(p: string, x: string, tail: string)
    ensures p + "~~(" + x + ")" + tail == (p + "~~") + ("(" + x + ")" + tail)
  {
    assert "~~(" == "~~" + "(";
    assert p + "~~(" == (p + "~~") + "(";
    assert p + "~~(" + x == (p + "~~") + ("(" + x);
    assert p + "~~(" + x + ")" == (p + "~~") + ("(" + x + ")");
  }

  /** `p~~` hides no group match when every `(` of `p` is closed inside `p`. */
  lemma SealedTildes(p: string)
    requires '!' !in p
    requires forall i :: 0 <= i < |p| && p[i] == '(' ==> NonParenRun(p[i + 1..]) < |p| - i - 1
    ensures Sealed(p + "~~")
  {
    var q := p + "~~";
    forall i | 0 <= i < |q| && q[i] == '('
      ensures NonParenRun(q[i + 1..]) < |q| - i - 1
    {
      assert i < |p| && p[i] == '(';
      NonParenRunConcat(p[i + 1..], "~~");
      assert q[i + 1..] == p[i + 1..] + "~~";
    }
    assert forall i :: 0 <= i < |q| ==> q[i] != '!';
  }

  lemma NotEncodingAfterTilde(p: string, x: string, tail: string)
    ensures (p + "~") + ("~(" + x + ")" + tail) == p + "~~(" + x + ")" + tail
  {
    assert "~~(" == "~" + "~(";
    assert p + "~~(" == (p + "~") + "~(";
    assert p + "~~(" + x == (p + "~") + ("~(" + x);
    assert p + "~~(" + x + ")" == (p + "~") + ("~(" + x + ")");
  }

  /** Two `~` in a row are both left as they are. */
  lemma TildePairKept(r: string, i: nat)
    requires i + 1 < |r| && r[i] == '~' && r[i + 1] == '~'
    ensures XorRewrite(r)[i] == '~' && XorRewrite(r)[i + 1] == '~'
  {
    assert !XorAt(r, i);
    assert !XorAt(r, i + 1);
  }

  /** What reaches `sympify`: no space, no `*` or `+`, and no `0` or `1` standing as a
      word of its own. */
  lemma SympyTextShape(expr: string)
    ensures ' ' !in SympyText(expr) && '*' !in SympyText(expr) && '+' !in SympyText(expr)
    ensures !HasStandalone(SympyText(expr), '0', false)
    ensures !HasStandalone(SympyText(expr), '1', false)
  {
    var s1 := ReplaceChar(expr, ' ', "");
    var s2 := RunBangPass(s1, IdentifierHead, "~(", ")");
    var s3 := ReduceGroups(s2, "~", "");
    var s4 := XorRewrite(s3);
    var s45 := ReplaceChar(s4, '*', "&");
    var s5 := ReplaceChar(s45, '+', "|");
    ReplaceCharRemoves(expr, ' ', "");
    RunBangPassAbsent(s1, IdentifierHead, "~(", ")", ' ');
    ReduceGroupsAbsent(s2, "~", "", ' ');
    assert ' ' !in s4;
    FinalStepsShape(s4);
  }

  /** The last four rewrites (`*`, `+`, `0`, `1`) leave no `*`, `+` or standalone
      digit, and add no space. */
  lemma FinalStepsShape(s4: string)
    requires ' ' !in s4
    ensures var s5 := ReplaceChar(ReplaceChar(s4, '*', "&"), '+', "|");
            var r := ReplaceStandalone(ReplaceStandalone(s5, '0', "False", false), '1', "True", false);
            ' ' !in r && '*' !in r && '+' !in r &&
            !HasStandalone(r, '0', false) && !HasStandalone(r, '1', false)
  {
    var s45 := ReplaceChar(s4, '*', "&");
    var s5 := ReplaceChar(s45, '+', "|");
    ReplaceCharRemoves(s4, '*', "&");
    ReplaceCharRemoves(s45, '+', "|");
    ReplaceCharKeepsAbsent(s45, '+', "|", '*');
    ReplaceCharKeepsAbsent(s4, '*', "&", ' ');
    ReplaceCharKeepsAbsent(s45, '+', "|", ' ');
    StandaloneStepsShape(s5);
  }

  /** The replacement words of the constant rewrites are words without digits or
      operators. */
  lemma ConstantWords()
    ensures AllWord("False") && AllWord("True")
    ensures forall ch :: ch in "False" || ch in "True" ==> IsIdentStart(ch)
  {
  }

  lemma StandaloneStepsShape(s5: string)
    requires ' ' !in s5 && '*' !in s5 && '+' !in s5
    ensures var r := ReplaceStandalone(ReplaceStandalone(s5, '0', "False", false), '1', "True", false);
            ' ' !in r && '*' !in r && '+' !in r &&
            !HasStandalone(r, '0', false) && !HasStandalone(r, '1', false)
  {
    var s6 := ReplaceStandalone(s5, '0', "False", false);
    ConstantWords();
    ReplaceStandaloneAbsent(s5, '0', "False", '*', false);
    ReplaceStandaloneAbsent(s5, '0', "False", '+', false);
    ReplaceStandaloneAbsent(s5, '0', "False", ' ', false);
    ReplaceStandaloneAbsent(s6, '1', "True", '*', false);
    ReplaceStandaloneAbsent(s6, '1', "True", '+', false);
    ReplaceStandaloneAbsent(s6, '1', "True", ' ', false);
    ReplaceStandaloneLeaves(s5, '0', "False", '0', false);
    ReplaceStandaloneLeaves(s6, '1', "True", '0', false);
    ReplaceStandaloneLeaves(s6, '1', "True", '1', false);
  }

  /** `digital_to_sympy`: rewrites the text step by step, as the source does, then
      hands it to `sympify` with the given variables or those inferred from the
      original expression. */
  method DigitalToSympy(expr: string, variables: Option<seq<string>>, sympify: Sympify)
    returns (text: string, names: seq<string>, e: Result<BoolExpr>)
    ensures text == SympyText(expr)
    ensures names == VariablesFor(expr, variables)
    ensures e == sympify(text, names)
  {
    var s := ReplaceChar(expr, ' ', "");
    s := RunBangPass(s, IdentifierHead, "~(", ")");
    ghost var afterBang := s;
    while HasGroupBang(s)
      invariant ReduceGroups(s, "~", "") == ReduceGroups(afterBang, "~", "")
      decreases Count(s, '!')
    {
      s := GroupPass(s, "~", "");
    }
    s := XorRewrite(s);
    s := ReplaceChar(s, '*', "&");
    s := ReplaceChar(s, '+', "|");
    s := ReplaceStandalone(s, '0', "False", false);
    s := ReplaceStandalone(s, '1', "True", false);
    text := s;
    match variables {
      case Some(given) => names := given;
      case None => names := InferVariables(expr);
    }
    e := sympify(text, names);
  }

  datatype Option<T> = None | Some(value: T)

  function VariablesFor(expr: string, variables: Option<seq<string>>): seq<string>
  {
    match variables
    case Some(given) => given
    case None => InferVariables(expr)
  }

  // ---------------------------------------------------------------------------
  // Inferring the variables.

  /** `re.findall(r"\b[A-Za-z_]\w*\b", s)`: the maximal runs of word characters that
      begin with a letter or `_`, in order. A run that begins with a digit yields
      nothing, since `\b` cannot hold inside a run. */
  function Tokens(s: string): (ts: seq<string>)
    ensures forall t :: t in ts ==> IsIdentifier(t)
    decreases |s|
  {
    if s == [] then []
    else if !IsWordChar(s[0]) then Tokens(s[1..])
    else
      var k := WordRun(s);
      (if IsIdentStart(s[0]) then [s[..k]] else []) + Tokens(s[k..])
  }

  /** `t` stands at `i` in `s` as a whole identifier, with `\b` on both sides. */
  predicate TokenAt(s: string, i: int, t: string) {
    0 <= i && i + |t| <= |s| && IsIdentifier(t) && s[i..i + |t|] == t &&
    (i == 0 || !IsWordChar(s[i - 1])) &&
    (i + |t| == |s| || !IsWordChar(s[i + |t|]))
  }

  /** A whole identifier of a suffix is one of the whole text, unless it starts the
      suffix right after a word character. */
  lemma TokenAtShift(s: string, p: nat, j: int, t: string)
    requires p <= |s| && TokenAt(s[p..], j, t)
    requires j > 0 || p == 0 || !IsWordChar(s[p - 1])
    ensures TokenAt(s, p + j, t)
  {
    assert s[p + j..p + j + |t|] == s[p..][j..j + |t|];
    if j > 0 {
      assert s[p + j - 1] == s[p..][j - 1];
    }
    if p + j + |t| < |s| {
      assert s[p + j + |t|] == s[p..][j + |t|];
    }
  }

  /** A whole identifier of the text is one of every suffix that still holds it. */
  lemma TokenAtUnshift(s: string, p: nat, i: int, t: string)
    requires TokenAt(s, i, t) && p <= i
    ensures TokenAt(s[p..], i - p, t)
  {
    assert s[p..][i - p..i - p + |t|] == s[i..i + |t|];
    if i - p > 0 {
      assert s[p..][i - p - 1] == s[i - 1];
    }
    if i + |t| < |s| {
      assert s[p..][i - p + |t|] == s[i + |t|];
    }
  }

  /** Every token stands in `s` as a whole identifier. */
  lemma {:induction false} TokensSound(s: string, t: string)
    requires t in Tokens(s)
    ensures exists i :: TokenAt(s, i, t)
    decreases |s|
  {
    if !IsWordChar(s[0]) {
      TokensSound(s[1..], t);
      var j :| TokenAt(s[1..], j, t);
      TokenAtShift(s, 1, j, t);
    } else {
      var k := WordRun(s);
      if IsIdentStart(s[0]) && t == s[..k] {
        assert TokenAt(s, 0, t);
      } else {
        assert t in Tokens(s[k..]);
        TokensSound(s[k..], t);
        var j :| TokenAt(s[k..], j, t);
        assert s[k..][j] == t[0];
        TokenAtShift(s, k, j, t);
      }
    }
  }

  /** Every whole identifier of `s` is a token. */
  lemma {:induction false} TokensComplete(s: string, i: int, t: string)
    requires TokenAt(s, i, t)
    ensures t in Tokens(s)
    decreases |s|
  {
    assert s[i] == t[0];
    if !IsWordChar(s[0]) {
      TokenAtUnshift(s, 1, i, t);
      TokensComplete(s[1..], i - 1, t);
    } else {
      var k := WordRun(s);
      if i == 0 {
        assert s[..|t|] == t;
        assert s == t + s[|t|..];
        WordRunOfWord(t, s[|t|..]);
        assert t == s[..k];
      } else {
        assert !IsWordChar(s[i - 1]);
        assert forall j :: 0 <= j < k ==> IsWordChar(s[j]) by {
          assert forall j :: 0 <= j < k ==> s[..k][j] == s[j];
        }
        assert i > k;
        TokenAtUnshift(s, k, i, t);
        TokensComplete(s[k..], i - k, t);
      }
    }
  }

  /** Tokens do not cross a non-word character. */
  lemma {:induction false} TokensConcat(x: string, z: string)
    requires z == [] || !IsWordChar(z[0])
    ensures Tokens(x + z) == Tokens(x) + Tokens(z)
    decreases |x|
  {
    if x == [] {
      assert x + z == z;
    } else if !IsWordChar(x[0]) {
      assert (x + z)[1..] == x[1..] + z;
      TokensConcat(x[1..], z);
    } else {
      var k := WordRun(x);
      if k < |x| {
        WordRunPrefix(x, z);
      } else {
        assert x[..k] == x;
        WordRunOfWord(x, z);
      }
      var head := if IsIdentStart(x[0]) then [x[..k]] else [];
      assert (x + z)[0] == x[0];
      assert (x + z)[..k] == x[..k];
      assert (x + z)[k..] == x[k..] + z;
      assert Tokens(x + z) == head + Tokens(x[k..] + z);
      assert Tokens(x) == head + Tokens(x[k..]);
      TokensConcat(x[k..], z);
      ConcatAssoc(head, Tokens(x[k..]), Tokens(z));
    }
  }

  /** `_infer_variables`: `sorted(set(re.findall(...)))` over the original text. */
  function InferVariables(expr: string): (r: seq<string>)
    ensures StrictlySorted(r)
    ensures forall t :: t in r <==> t in Tokens(expr)
  {
    SortedUnique(Tokens(expr))
  }

  /** The inferred variables are exactly the whole identifiers of the original text,
      sorted and without repetition; in particular the constants `0` and `1` and
      digits inside identifiers such as `A_0` never stand as variables. */
  lemma InferVariablesExact(expr: string)
    ensures StrictlySorted(InferVariables(expr))
    ensures forall t :: t in InferVariables(expr) <==> exists i :: TokenAt(expr, i, t)
    ensures forall t :: t in InferVariables(expr) ==> IsIdentifier(t)
    ensures "0" !in InferVariables(expr) && "1" !in InferVariables(expr)
  {
    forall t ensures t in InferVariables(expr) <==> exists i :: TokenAt(expr, i, t) {
      if t in Tokens(expr) {
        TokensSound(expr, t);
      }
      if exists i :: TokenAt(expr, i, t) {
        var i :| TokenAt(expr, i, t);
        TokensComplete(expr, i, t);
      }
    }
  }

  // ---------------------------------------------------------------------------
  // Rendering back into the notation.

  /** How a constant is rendered. `PythonStr` is what the code does: its checks
      `e is BooleanTrue` compare with the classes, never with SymPy's `true` and
      `false`, so constants fall through to `str(e)`. `NotationDigits` is the
      evidently intended `1` and `0`. */
  datatype Literals = PythonStr | NotationDigits

  function ConstText(b: bool, lit: Literals): string {
    match lit
    case PythonStr => if b then "True" else "False"
    case NotationDigits => if b then "1" else "0"
  }

  datatype Op = AndOp | OrOp | XorOp

  /** `_maybe_paren`: an AND operand containing `+` or `~` anywhere, and an XOR
      operand containing `+` anywhere, is parenthesised; OR operands never are. */
  function MaybeParen(s: string, op: Op): string {
    match op
    case AndOp => if '+' in s || '~' in s then "(" + s + ")" else s
    case XorOp => if '+' in s then "(" + s + ")" else s
    case OrOp => s
  }

  /** `sympy_to_digital`, with the constants rendered as `lit` says. */
  function Rendered(e: BoolExpr, lit: Literals): string
    decreases e
  {
    match e
    case Const(b) => ConstText(b, lit)
    case Symbol(n) => n
    case Not(a) => if a.Symbol? then Rendered(a, lit) + "!" else "(" + Rendered(a, lit) + ")!"
    case And(xs) => Join("*", seq(|xs|, i requires 0 <= i < |xs| => MaybeParen(Rendered(xs[i], lit), AndOp)))
    case Or(xs) => Join("+", seq(|xs|, i requires 0 <= i < |xs| => MaybeParen(Rendered(xs[i], lit), OrOp)))
    case Xor(xs) => Join("~", seq(|xs|, i requires 0 <= i < |xs| => MaybeParen(Rendered(xs[i], lit), XorOp)))
  }

  /** The renderer as written: constants come out as `True` and `False`. */
  function RenderAsWritten(e: BoolExpr): string {
    Rendered(e, PythonStr)
  }

  /** The renderer with constants as the notation's `1` and `0`. */
  function Render(e: BoolExpr): string {
    Rendered(e, NotationDigits)
  }

  /** Does the symbol `n` occur in `e`? */
  predicate Mentions(e: BoolExpr, n: string)
    decreases e
  {
    match e
    case Const(_) => false
    case Symbol(m) => m == n
    case Not(a) => Mentions(a, n)
    case And(xs) => exists i :: 0 <= i < |xs| && Mentions(xs[i], n)
    case Or(xs) => exists i :: 0 <= i < |xs| && Mentions(xs[i], n)
    case Xor(xs) => exists i :: 0 <= i < |xs| && Mentions(xs[i], n)
  }

  /** Every symbol of `e` is named by an identifier, as the inferred variables are. */
  predicate WellNamed(e: BoolExpr)
    decreases e
  {
    match e
    case Const(_) => true
    case Symbol(n) => IsIdentifier(n)
    case Not(a) => WellNamed(a)
    case And(xs) => forall i :: 0 <= i < |xs| ==> WellNamed(xs[i])
    case Or(xs) => forall i :: 0 <= i < |xs| ==> WellNamed(xs[i])
    case Xor(xs) => forall i :: 0 <= i < |xs| ==> WellNamed(xs[i])
  }

  /** The operands of `e` rendered and guarded for `op`, in order. */
  function Operands(xs: seq<BoolExpr>, op: Op, lit: Literals): (parts: seq<string>)
    ensures |parts| == |xs|
  {
    seq(|xs|, i requires 0 <= i < |xs| => MaybeParen(Rendered(xs[i], lit), op))
  }

  lemma OperandsRender(xs: seq<BoolExpr>, op: Op, lit: Literals)
    ensures Rendered(And(xs), lit) == Join("*", Operands(xs, AndOp, lit))
    ensures Rendered(Or(xs), lit) == Join("+", Operands(xs, OrOp, lit))
    ensures Rendered(Xor(xs), lit) == Join("~", Operands(xs, XorOp, lit))
  {
  }

  // Balance and precedence of the rendering.

  lemma IdentifierParenFree(n: string)
    requires IsIdentifier(n)
    ensures '(' !in n && ')' !in n && '+' !in n && '~' !in n
  {
    AllWordExcludes(n, '(');
    AllWordExcludes(n, ')');
    AllWordExcludes(n, '+');
    AllWordExcludes(n, '~');
  }

  /** `_maybe_paren` keeps a balanced operand balanced, and a guarded AND operand has
      no `+` or `~` outside parentheses, a guarded XOR operand no `+`. */
  lemma MaybeParenGuards(s: string, op: Op)
    requires Balanced(s)
    ensures Balanced(MaybeParen(s, op))
    ensures op == AndOp ==> TopLevelFree(MaybeParen(s, op), '+', 0) && TopLevelFree(MaybeParen(s, op), '~', 0)
    ensures op == XorOp ==> TopLevelFree(MaybeParen(s, op), '+', 0)
  {
    match op
    case AndOp =>
      if '+' in s || '~' in s {
        Parenthesised(s, '+');
        Parenthesised(s, '~');
      } else {
        TopLevelFreeAbsent(s, '+', 0);
        TopLevelFreeAbsent(s, '~', 0);
      }
    case XorOp =>
      if '+' in s {
        Parenthesised(s, '+');
      } else {
        TopLevelFreeAbsent(s, '+', 0);
      }
    case OrOp =>
  }

  /** Every rendering of a well-named expression has balanced parentheses. */
  lemma {:induction false} RenderBalanced(e: BoolExpr, lit: Literals)
    requires WellNamed(e)
    ensures Balanced(Rendered(e, lit))
    decreases e
  {
    match e
    case Const(b) =>
      DepthParenFree(ConstText(b, lit), 0);
    case Symbol(n) =>
      IdentifierParenFree(n);
      DepthParenFree(n, 0);
    case Not(a) =>
      RenderBalanced(a, lit);
      var inner := Rendered(a, lit);
      if a.Symbol? {
        DepthConcat(inner, "!", '!', 0);
        DepthParenFree("!", 0);
      } else {
        Parenthesised(inner, '!');
        assert "(" + inner + ")!" == "(" + inner + ")" + "!";
        DepthConcat("(" + inner + ")", "!", '!', 0);
        DepthParenFree("!", 0);
      }
    case And(xs) =>
      OperandsBalanced(xs, AndOp, lit);
      JoinBalanced("*", Operands(xs, AndOp, lit), '+');
    case Or(xs) =>
      OperandsBalanced(xs, OrOp, lit);
      JoinBalanced("+", Operands(xs, OrOp, lit), '+');
    case Xor(xs) =>
      OperandsBalanced(xs, XorOp, lit);
      JoinBalanced("~", Operands(xs, XorOp, lit), '+');
  }

  lemma {:induction false} OperandsBalanced(xs: seq<BoolExpr>, op: Op, lit: Literals)
    requires forall i :: 0 <= i < |xs| ==> WellNamed(xs[i])
    ensures forall i :: 0 <= i < |xs| ==> Balanced(Operands(xs, op, lit)[i])
    ensures op == AndOp ==> forall i :: 0 <= i < |xs| ==>
              TopLevelFree(Operands(xs, op, lit)[i], '+', 0) && TopLevelFree(Operands(xs, op, lit)[i], '~', 0)
    ensures op == XorOp ==> forall i :: 0 <= i < |xs| ==> TopLevelFree(Operands(xs, op, lit)[i], '+', 0)
    decreases xs, 0
  {
    forall i | 0 <= i < |xs|
      ensures Balanced(Operands(xs, op, lit)[i])
      ensures op == AndOp ==> TopLevelFree(Operands(xs, op, lit)[i], '+', 0) && TopLevelFree(Operands(xs, op, lit)[i], '~', 0)
      ensures op == XorOp ==> TopLevelFree(Operands(xs, op, lit)[i], '+', 0)
    {
      RenderBalanced(xs[i], lit);
      MaybeParenGuards(Rendered(xs[i], lit), op);
    }
  }

  /** Read back with Python's precedence (`&` over `^` over `|`), a rendered AND is one
      product: none of its `+` or `~` stands outside parentheses; a rendered XOR has no
      `+` outside parentheses. */
  lemma RenderPrecedence(xs: seq<BoolExpr>, lit: Literals)
    requires forall i :: 0 <= i < |xs| ==> WellNamed(xs[i])
    ensures TopLevelFree(Rendered(And(xs), lit), '+', 0) && TopLevelFree(Rendered(And(xs), lit), '~', 0)
    ensures TopLevelFree(Rendered(Xor(xs), lit), '+', 0)
  {
    OperandsRender(xs, AndOp, lit);
    OperandsBalanced(xs, AndOp, lit);
    OperandsBalanced(xs, XorOp, lit);
    JoinBalanced("*", Operands(xs, AndOp, lit), '+');
    JoinBalanced("*", Operands(xs, AndOp, lit), '~');
    JoinBalanced("~", Operands(xs, XorOp, lit), '+');
  }

  // The names a rendering mentions.

  lemma TokensSkip(c: char, x: string)
    requires !IsWordChar(c)
    ensures Tokens([c] + x) == Tokens(x)
  {
    assert ([c] + x)[1..] == x;
  }

  lemma IdentifierToken(n: string)
    requires IsIdentifier(n)
    ensures Tokens(n) == [n]
  {
    assert n + [] == n;
    WordRunOfWord(n, []);
    assert n[..|n|] == n;
  }

  /** A joined text mentions what its parts mention, when the separator is one
      non-word character. */
  lemma {:induction false} JoinTokens(sep: string, parts: seq<string>, t: string)
    requires |sep| == 1 && !IsWordChar(sep[0])
    ensures t in Tokens(Join(sep, parts)) <==> exists i :: 0 <= i < |parts| && t in Tokens(parts[i])
  {
    if |parts| >= 2 {
      var rest := Join(sep, parts[1..]);
      JoinTokens(sep, parts[1..], t);
      assert parts[0] + sep + rest == parts[0] + (sep + rest);
      TokensConcat(parts[0], sep + rest);
      assert sep + rest == [sep[0]] + rest;
      TokensSkip(sep[0], rest);
      if exists i :: 0 <= i < |parts| && t in Tokens(parts[i]) {
        var i :| 0 <= i < |parts| && t in Tokens(parts[i]);
        if i > 0 {
          assert parts[1..][i - 1] == parts[i];
        }
      }
      if exists i :: 0 <= i < |parts[1..]| && t in Tokens(parts[1..][i]) {
        var i :| 0 <= i < |parts[1..]| && t in Tokens(parts[1..][i]);
        assert parts[i + 1] == parts[1..][i];
      }
    }
  }

  lemma MaybeParenTokens(s: string, op: Op)
    ensures Tokens(MaybeParen(s, op)) == Tokens(s)
  {
    if MaybeParen(s, op) != s {
      assert "(" + s + ")" == ['('] + s + [')'];
      TokensConcat(['('] + s, [')']);
      TokensSkip('(', s);
      assert Tokens([')']) == [];
    }
  }

  /** Read back by `_infer_variables`, the rendering of a well-named expression with
      the notation's constants mentions exactly the expression's symbols. */
  lemma {:induction false} RenderTokens(e: BoolExpr, t: string)
    requires WellNamed(e)
    ensures t in Tokens(Render(e)) <==> Mentions(e, t)
    decreases e
  {
    match e
    case Const(b) =>
      var c := ConstText(b, NotationDigits);
      assert c == [c[0]] + [];
      assert WordRun(c) == 1;
    case Symbol(n) =>
      IdentifierToken(n);
    case Not(a) =>
      RenderTokens(a, t);
      var inner := Render(a);
      assert Tokens("!") == [];
      if a.Symbol? {
        TokensConcat(inner, "!");
      } else {
        assert "(" + inner + ")!" == ['('] + inner + ")!";
        TokensConcat(['('] + inner, ")!");
        TokensSkip('(', inner);
        assert Tokens(")!") == [] by {
          assert ")!"[1..] == "!";
        }
      }
    case And(xs) =>
      OperandsRender(xs, AndOp, NotationDigits);
      OperandsTokens(xs, AndOp, t);
      JoinTokens("*", Operands(xs, AndOp, NotationDigits), t);
    case Or(xs) =>
      OperandsRender(xs, OrOp, NotationDigits);
      OperandsTokens(xs, OrOp, t);
      JoinTokens("+", Operands(xs, OrOp, NotationDigits), t);
    case Xor(xs) =>
      OperandsRender(xs, XorOp, NotationDigits);
      OperandsTokens(xs, XorOp, t);
      JoinTokens("~", Operands(xs, XorOp, NotationDigits), t);
  }

  lemma {:induction false} OperandsTokens(xs: seq<BoolExpr>, op: Op, t: string)
    requires forall i :: 0 <= i < |xs| ==> WellNamed(xs[i])
    ensures forall i :: 0 <= i < |xs| ==>
              (t in Tokens(Operands(xs, op, NotationDigits)[i]) <==> Mentions(xs[i], t))
    decreases xs, 0
  {
    forall i | 0 <= i < |xs|
      ensures t in Tokens(Operands(xs, op, NotationDigits)[i]) <==> Mentions(xs[i], t)
    {
      RenderTokens(xs[i], t);
      MaybeParenTokens(Render(xs[i]), op);
    }
  }

  /** The variables inferred from a rendering are the expression's symbols, sorted. */
  lemma RenderVariables(e: BoolExpr)
    requires WellNamed(e)
    ensures StrictlySorted(InferVariables(Render(e)))
    ensures forall t :: t in InferVariables(Render(e)) <==> Mentions(e, t)
  {
    forall t ensures t in InferVariables(Render(e)) <==> Mentions(e, t) {
      RenderTokens(e, t);
    }
  }

  // The constants in the rendering.

  /** As written, a simplified constant comes back as `True` or `False`, which reads
      back as a variable named `True`. */
  lemma ConstantRenderingAsWritten()
    ensures RenderAsWritten(Const(true)) == "True" && RenderAsWritten(Const(false)) == "False"
    ensures InferVariables(RenderAsWritten(Const(true))) == ["True"]
  {
    var r := RenderAsWritten(Const(true));
    assert r == "True";
    IdentifierToken(r);
    var v := InferVariables(r);
    assert forall t :: t in v <==> t in ["True"];
    StrictlySortedUnique(v, ["True"]);
  }

  /** With the notation's digits a constant reads back as no variable at all. */
  lemma ConstantRendering()
    ensures Render(Const(true)) == "1" && Render(Const(false)) == "0"
    ensures InferVariables(Render(Const(true))) == []
  {
    RenderVariables(Const(true));
  }

  /** The same expression with the two styles of constants differs exactly in them. */
  lemma {:induction false} RenderStylesAgreeWithoutConstants(e: BoolExpr)
    requires !HasConst(e)
    ensures RenderAsWritten(e) == Render(e)
    decreases e
  {
    match e
    case Const(_) =>
    case Symbol(_) =>
    case Not(a) => RenderStylesAgreeWithoutConstants(a);
    case And(xs) =>
      forall i | 0 <= i < |xs| ensures Rendered(xs[i], PythonStr) == Rendered(xs[i], NotationDigits) {
        RenderStylesAgreeWithoutConstants(xs[i]);
      }
      assert Operands(xs, AndOp, PythonStr) == Operands(xs, AndOp, NotationDigits);
    case Or(xs) =>
      forall i | 0 <= i < |xs| ensures Rendered(xs[i], PythonStr) == Rendered(xs[i], NotationDigits) {
        RenderStylesAgreeWithoutConstants(xs[i]);
      }
      assert Operands(xs, OrOp, PythonStr) == Operands(xs, OrOp, NotationDigits);
    case Xor(xs) =>
      forall i | 0 <= i < |xs| ensures Rendered(xs[i], PythonStr) == Rendered(xs[i], NotationDigits) {
        RenderStylesAgreeWithoutConstants(xs[i]);
      }
      assert Operands(xs, XorOp, PythonStr) == Operands(xs, XorOp, NotationDigits);
  }

  predicate HasConst(e: BoolExpr)
    decreases e
  {
    match e
    case Const(_) => true
    case Symbol(_) => false
    case Not(a) => HasConst(a)
    case And(xs) => exists i :: 0 <= i < |xs| && HasConst(xs[i])
    case Or(xs) => exists i :: 0 <= i < |xs| && HasConst(xs[i])
    case Xor(xs) => exists i :: 0 <= i < |xs| && HasConst(xs[i])
  }

  /** The renderer as written reads back exactly the expression's symbols when the
      expression holds no constant. */
  lemma RenderAsWrittenTokens(e: BoolExpr, t: string)
    requires WellNamed(e) && !HasConst(e)
    ensures t in Tokens(RenderAsWritten(e)) <==> Mentions(e, t)
  {
    RenderStylesAgreeWithoutConstants(e);
    RenderTokens(e, t);
  }

  /** The variables inferred from an as-written rendering without constants are the
      expression's symbols, sorted. */
  lemma RenderAsWrittenVariables(e: BoolExpr)
    requires WellNamed(e) && !HasConst(e)
    ensures StrictlySorted(InferVariables(RenderAsWritten(e)))
    ensures forall t :: t in InferVariables(RenderAsWritten(e)) <==> Mentions(e, t)
  {
    RenderStylesAgreeWithoutConstants(e);
    RenderVariables(e);
  }

  // ---------------------------------------------------------------------------
  // simplify_logic.

  /** The `form` handed to SymPy's simplifier: `dnf` and `cnf` are passed on; every
      other value, `auto` included, selects SymPy's default. */
  datatype FormChoice = DefaultForm | GivenForm(name: string)

  function FormArg(form: string): (c: FormChoice)
    ensures c.GivenForm? <==> form == "dnf" || form == "cnf"
    ensures c.GivenForm? ==> c.name == form
  {
    if form == "dnf" || form == "cnf" then GivenForm(form) else DefaultForm
  }

  /** `sp.simplify_logic(e, form=...)`: the minimised expression, or the exception
      SymPy raises. */
  type Simplifier = (BoolExpr, FormChoice) -> Result<BoolExpr>

  /** The value `simplify_logic` returns: the SymPy expression or its rendering. */
  datatype Simplified = Tree(expr: BoolExpr) | Text(text: string)

  /** What `simplify_logic` computes, with the constants rendered as `lit` says:
      `PythonStr` is the code as written, `NotationDigits` the corrected renderer. */
  function Simplify(expr: string, form: string, returnSympy: bool, variables: Option<seq<string>>,
                    sympify: Sympify, simplifier: Simplifier, lit: Literals): Result<Simplified>
  {
    match sympify(SympyText(expr), VariablesFor(expr, variables))
    case Raised(m) => Raised(m)
    case Ok(e) =>
      match simplifier(e, FormArg(form))
      case Raised(m) => Raised(m)
      case Ok(es) => Ok(if returnSympy then Tree(es) else Text(Rendered(es, lit)))
  }

  /** `simplify_logic`: a parse failure or a failure of the simplifier propagates;
      otherwise the simplified expression is returned as it is or rendered. */
  method SimplifyLogic(expr: string, form: string, returnSympy: bool, variables: Option<seq<string>>,
                       sympify: Sympify, simplifier: Simplifier, lit: Literals)
    returns (r: Result<Simplified>)
    ensures r == Simplify(expr, form, returnSympy, variables, sympify, simplifier, lit)
    ensures r.Raised? <==> sympify(SympyText(expr), VariablesFor(expr, variables)).Raised? ||
                           simplifier(sympify(SympyText(expr), VariablesFor(expr, variables)).value, FormArg(form)).Raised?
    ensures r.Ok? ==> (r.value.Tree? <==> returnSympy)
  {
    var text, names, e := DigitalToSympy(expr, variables, sympify);
    match e {
      case Raised(m) =>
        r := Raised(m);
      case Ok(parsed) =>
        var es := simplifier(parsed, FormArg(form));
        match es {
          case Raised(m) =>
            r := Raised(m);
          case Ok(simplified) =>
            if returnSympy {
              r := Ok(Tree(simplified));
            } else {
              r := Ok(Text(Rendered(simplified, lit)));
            }
        }
    }
  }

  /** A rendered result reads back with the simplified expression's symbols as its
      variables, so rendering loses no variable and invents none. The corrected
      renderer does so for every simplified expression; the renderer as written only
      when the simplified expression holds no constant. */
  lemma SimplifyTextVariables(expr: string, form: string, variables: Option<seq<string>>,
                              sympify: Sympify, simplifier: Simplifier, lit: Literals)
    requires sympify(SympyText(expr), VariablesFor(expr, variables)).Ok?
    requires simplifier(sympify(SympyText(expr), VariablesFor(expr, variables)).value, FormArg(form)).Ok?
    requires WellNamed(simplifier(sympify(SympyText(expr), VariablesFor(expr, variables)).value, FormArg(form)).value)
    requires lit == PythonStr ==>
               !HasConst(simplifier(sympify(SympyText(expr), VariablesFor(expr, variables)).value, FormArg(form)).value)
    ensures var r := Simplify(expr, form, false, variables, sympify, simplifier, lit);
            r.Ok? && r.value.Text? && StrictlySorted(InferVariables(r.value.text)) &&
            forall t :: t in InferVariables(r.value.text) <==>
              Mentions(simplifier(sympify(SympyText(expr), VariablesFor(expr, variables)).value, FormArg(form)).value, t)
  {
    var es := simplifier(sympify(SympyText(expr), VariablesFor(expr, variables)).value, FormArg(form)).value;
    if lit == PythonStr {
      RenderStylesAgreeWithoutConstants(es);
    }
    RenderVariables(es);
  }

  /** As written, a simplification to a constant comes back as the text `True` or
      `False`, and reading that text back finds a variable named after the constant. */
  lemma SimplifyConstantAsWritten(expr: string, form: string, variables: Option<seq<string>>,
                                  sympify: Sympify, simplifier: Simplifier, b: bool)
    requires sympify(SympyText(expr), VariablesFor(expr, variables)).Ok?
    requires simplifier(sympify(SympyText(expr), VariablesFor(expr, variables)).value, FormArg(form)) == Ok(Const(b))
    ensures Simplify(expr, form, false, variables, sympify, simplifier, PythonStr)
              == Ok(Text(if b then "True" else "False"))
    ensures InferVariables(if b then "True" else "False") == [if b then "True" else "False"]
  {
    ConstantRenderingAsWritten();
    var r := RenderAsWritten(Const(false));
    IdentifierToken(r);
    var v := InferVariables(r);
    assert forall t :: t in v <==> t in ["False"];
    StrictlySortedUnique(v, ["False"]);
  }

  /** With the corrected renderer a simplification to a constant comes back as `1` or
      `0`, which reads back as no variable. */
  lemma SimplifyConstantCorrected(expr: string, form: string, variables: Option<seq<string>>,
                                  sympify: Sympify, simplifier: Simplifier, b: bool)
    requires sympify(SympyText(expr), VariablesFor(expr, variables)).Ok?
    requires simplifier(sympify(SympyText(expr), VariablesFor(expr, variables)).value, FormArg(form)) == Ok(Const(b))
    ensures Simplify(expr, form, false, variables, sympify, simplifier, NotationDigits)
              == Ok(Text(if b then "1" else "0"))
    ensures InferVariables(if b then "1" else "0") == []
  {
    RenderVariables(Const(b));
  }
}
