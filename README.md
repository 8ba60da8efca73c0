# elektropy in Dafny

A model of the parts of the elektropy electronics toolkit that have structure:

- **The digital-logic notation.** The notation writes `*` for AND, `+` for OR, postfix `!` for NOT, infix `~` for XOR, and `0`/`1` for constants. There are two pipelines over it:
  - The simplifier (`simplify_logic.py`) rewrites an expression into SymPy syntax, step by step. It infers the variables and hands the text to SymPy. It then renders the simplified tree back into the notation.
  - The truth-table generator (`truth_table.py`) rewrites the same notation into a Python expression. It evaluates that expression once per assignment, in binary-counter order, and formats the table.
- **The closed-form circuit formulas:**
  - power and divider formulas (`basic_functions.py`);
  - series and parallel resistance (`resistance.py`);
  - the Wheatstone bridge (`wheatstone.py`).

Modules:

- `Text`:
  - the `\w` character classes, read as ASCII;
  - counting, `str.replace` on one character, `str.join`;
  - parenthesis depth;
  - Python's order on strings, and `sorted(set(...))`.
- `Rewrite`: the two regular-expression substitutions both pipelines use for NOT.
  - `(H\w*)!` is written as a left-to-right scanner with `re.sub`'s rules.
  - The `\([^()]+\)!` pass is inside a `while` loop. The loop terminates because every pass lowers the number of `!`.
- `SimplifyLogic`:
  - the rewriting (`DigitalToSympy`, a method with the source's loop);
  - variable inference;
  - the renderer over a `BoolExpr` datatype;
  - `simplify_logic`.
- `TruthTable`:
  - the rewriting (`ToPython`);
  - `itertools.product`;
  - the environment of each row;
  - the table method and its lines.
- `Units`, `BasicFunctions`, `Resistance`, `Wheatstone`: the formulas over `real`. Each returns a value with its unit, or the exception it raises (`ValueError` with its message, or Python's `ZeroDivisionError`).

Foreign calls are function-typed parameters. SymPy's `sympify` is one (given the rewritten text and the variable names). SymPy's `simplify_logic` is another (given the form). The truth table's `eval` is a third (given the Python text and the environment).

Twice the code does not do what it evidently means to do, and the model keeps both behaviours:

- `sympy_to_digital` (simplify_logic.py:54-57) means to render the constants as `1` and `0`: it has `return "1"` and `return "0"` for them. As written, its test never matches SymPy's constants, so they are rendered as `True`/`False`. The renderer takes a `Literals` argument: `PythonStr` is the code as written, `NotationDigits` the evident intent. `SimplifyLogic.SimplifyLogic` takes the same argument.
- The docstring of `wheatstone_resistance` (wheatstone.py:31-42) presents it as the inverse of `wheatstone_voltage`. As written, it inverts the bridge with R1 and R3 exchanged. With R1 = R3 the same-argument round trip holds for every R, but not for every choice with R1 ≠ R3. `Wheatstone.WheatstoneResistanceAsWritten` is the code as written, and `Wheatstone.WheatstoneResistance` is the corrected inverse.
- Both are listed under Findings. Each has an as-written member and a corrected member.

## Model

| member | source | states |
|---|---|---|
| Text.ReplaceCharRemoves | src/elektropy/digitals/simplify_logic.py:21 | `ReplaceChar` is `str.replace` on one character; after `expr.replace(" ", "")` no space is left |
| Text.ReplaceCharCounts | src/elektropy/digitals/simplify_logic.py:21 | every other character is kept, as often as it occurred |
| Text.ReplaceCharConcat | src/elektropy/digitals/truth_table.py:15 | replacing works piece by piece, so the order of all characters is kept |
| Text.WordRun | src/elektropy/digitals/simplify_logic.py:5 | the greedy `\w*` takes exactly the leading run of word characters |
| Text.Repeat | src/elektropy/digitals/truth_table.py:37 | `"-" * n` has length `n` and holds only `-` |
| Text.SortedUnique | src/elektropy/digitals/simplify_logic.py:9 | `sorted(set(xs))` is strictly increasing in Python's string order (`Below`, code point by code point, a proper prefix first) and holds exactly the members of `xs` |
| Text.StrictlySortedUnique | src/elektropy/digitals/simplify_logic.py:9 | two strictly sorted lists with the same members are equal, so the inferred list is determined by its set |
| Rewrite.RunBangPass | src/elektropy/digitals/simplify_logic.py:24 | the NOT substitution never adds a `!`, and removes one exactly when there was a match |
| Rewrite.RunBangPassLeavesNone | src/elektropy/digitals/simplify_logic.py:24 | after the substitution no identifier followed by `!` is left |
| Rewrite.RunBangPassIdempotent | src/elektropy/digitals/simplify_logic.py:24 | the substitution applied twice equals it applied once |
| Rewrite.RunBangPassPrefix | src/elektropy/digitals/simplify_logic.py:24 | text without `!` that ends in a non-word character passes through unchanged, whatever follows it |
| Rewrite.RunBangPassCounts | src/elektropy/digitals/simplify_logic.py:24 | every character other than `!` and those of the replacement occurs as often after the substitution as before |
| Rewrite.RunBangWraps | src/elektropy/digitals/truth_table.py:18 | a whole word run followed by `!` is wrapped as one piece, replacement around it |
| Rewrite.GroupPass | src/elektropy/digitals/truth_table.py:22-23 | one group pass adds no `!`, and removes at least one when a `(body)!` is present |
| Rewrite.GroupPassCounts | src/elektropy/digitals/simplify_logic.py:29 | one group pass keeps every character other than `!` and those of the replacement, as often as it occurred |
| Rewrite.ReduceGroups | src/elektropy/digitals/simplify_logic.py:28-29 | the loop ends; on exit no `(body)!` with a non-empty, parenthesis-free body is left |
| Rewrite.ReduceGroupsCounts | src/elektropy/digitals/simplify_logic.py:28-29 | the whole loop keeps every character other than `!` and those of the replacement, as often as it occurred |
| Rewrite.GroupPassPrefix | src/elektropy/digitals/truth_table.py:22-23 | a piece in front whose every `(` is closed inside it, with no `)!` and not ending in `)`, passes a group pass unchanged and hides no match |
| Rewrite.ReduceGroupsPrefix | src/elektropy/digitals/truth_table.py:22-23 | the same piece passes the whole loop unchanged |
| SimplifyLogic.XorRewrite | src/elektropy/digitals/simplify_logic.py:33 | the XOR rewrite replaces character by character, so the length is kept |
| SimplifyLogic.XorRewriteChanges | src/elektropy/digitals/simplify_logic.py:33 | only a `~` can change, into `^`; a `~` after `)` or before another `~` stays; the rewrite is idempotent |
| SimplifyLogic.NotBangEncoding | src/elektropy/digitals/simplify_logic.py:24-33 | for any front piece ending in a word character, the NOT pass turns `p~X!` into `p~~(X)`, and the XOR rewrite of that keeps both `~` |
| SimplifyLogic.NotBlocksXor | src/elektropy/digitals/simplify_logic.py:24-33 | in `p~X!` the NOT becomes `~(X)`, giving `p~~(X)`; when every `(` of `p` is closed in `p`, the group loop leaves `p~~` alone, and in the text the XOR rewrite receives neither `~` becomes XOR |
| SimplifyLogic.ReplaceStandaloneLeaves | src/elektropy/digitals/simplify_logic.py:39-40 | `ReplaceStandalone` is `re.sub(r"\b<c>\b", w, s)`; after `\b0\b` and then `\b1\b` are replaced, neither `0` nor `1` stands as a word of its own |
| SimplifyLogic.ReplaceStandaloneKeepsWord | src/elektropy/digitals/simplify_logic.py:39-40 | a word of two or more characters, such as `A0`, `x_1` or `0B`, is kept whole, its digits included |
| SimplifyLogic.SympyTextShape | src/elektropy/digitals/simplify_logic.py:21-40 | the text handed to `sympify` (`SympyText`, the rewrites in order) has no space, `*` or `+`, and no standalone `0` or `1` |
| SimplifyLogic.DigitalToSympy | src/elektropy/digitals/simplify_logic.py:12-49 | the step-by-step rewriting, loop included, produces the specified text; the variables are the given list or the inferred one; the result is what `sympify` returns for them |
| SimplifyLogic.Tokens | src/elektropy/digitals/simplify_logic.py:8 | every token found is an identifier `[A-Za-z_]\w*` |
| SimplifyLogic.TokensSound | src/elektropy/digitals/simplify_logic.py:8 | every token stands in the text as a whole identifier bounded by `\b` |
| SimplifyLogic.TokensComplete | src/elektropy/digitals/simplify_logic.py:8 | every whole identifier of the text is found |
| SimplifyLogic.InferVariables | src/elektropy/digitals/simplify_logic.py:7-9 | the inferred variables are strictly sorted and are exactly the tokens of the original text |
| SimplifyLogic.InferVariablesExact | src/elektropy/digitals/simplify_logic.py:5-9 | the variables are exactly the whole identifiers of the original text, sorted without repetition; `0` and `1` are never among them |
| SimplifyLogic.MaybeParenGuards | src/elektropy/digitals/simplify_logic.py:80-92 | `MaybeParen` is `_maybe_paren`; a guarded AND operand has no `+` or `~` outside parentheses; a guarded XOR operand has no `+`; balance is kept |
| SimplifyLogic.RenderBalanced | src/elektropy/digitals/simplify_logic.py:58-67 | `Rendered(e, lit)` is `sympy_to_digital`, with `RenderAsWritten` and `Render` its two styles of constants; every rendering of an expression whose names are identifiers has balanced parentheses |
| SimplifyLogic.RenderPrecedence | src/elektropy/digitals/simplify_logic.py:68-76 | a rendered AND has no top-level `+` or `~`, and a rendered XOR no top-level `+`, so Python's precedence reads them back as one term |
| SimplifyLogic.RenderTokens | src/elektropy/digitals/simplify_logic.py:52-77 | with the corrected constants, the identifiers of a rendering are exactly the symbols of the expression |
| SimplifyLogic.RenderVariables | src/elektropy/digitals/simplify_logic.py:52-77 | with the corrected constants, variable inference on a rendering gives back the expression's symbols, sorted |
| SimplifyLogic.RenderAsWrittenTokens | src/elektropy/digitals/simplify_logic.py:52-77 | as written, the identifiers of the rendering of an expression without constants are exactly its symbols |
| SimplifyLogic.RenderAsWrittenVariables | src/elektropy/digitals/simplify_logic.py:52-77 | as written, variable inference on the rendering of an expression without constants gives back its symbols, sorted |
| SimplifyLogic.ConstantRenderingAsWritten | src/elektropy/digitals/simplify_logic.py:54-77 | as written, a constant renders as `True`/`False`, which reads back as a variable named `True` |
| SimplifyLogic.ConstantRendering | src/elektropy/digitals/simplify_logic.py:54-57 | with the intended digits, a constant renders as `1`/`0` and reads back as no variable |
| SimplifyLogic.RenderStylesAgreeWithoutConstants | src/elektropy/digitals/simplify_logic.py:52-77 | the two renderers differ only on constants |
| SimplifyLogic.FormArg | src/elektropy/digitals/simplify_logic.py:102-105 | `dnf` and `cnf` are passed to the simplifier; every other form selects its default |
| SimplifyLogic.SimplifyLogic | src/elektropy/digitals/simplify_logic.py:95-107 | the result is `Simplify`'s: it fails exactly when parsing or simplifying raises; otherwise it is the simplified tree when `return_sympy` is set, and its rendering otherwise; `lit = PythonStr` is the code as written |
| SimplifyLogic.SimplifyTextVariables | src/elektropy/digitals/simplify_logic.py:100-107 | the rendered result reads back with exactly the simplified expression's symbols as variables, sorted: always with the corrected renderer, and for a result without constants as written |
| SimplifyLogic.SimplifyConstantAsWritten | src/elektropy/digitals/simplify_logic.py:54-57 | as written, a simplification to a constant is returned as `True` or `False`, which reads back as a variable of that name |
| SimplifyLogic.SimplifyConstantCorrected | src/elektropy/digitals/simplify_logic.py:54-57 | corrected, it is returned as `1` or `0`, which reads back as no variable |
| TruthTable.PythonTextShape | src/elektropy/digitals/truth_table.py:26-32 | the evaluated text (`PythonText`, the rewrites in order) holds no `~`, `*` or `+` |
| TruthTable.NotWrapsRun | src/elektropy/digitals/truth_table.py:18 | the whole `[A-Za-z0-9_]+` run before `!` is wrapped, digits included: `1!` becomes `(not 1)` |
| TruthTable.LeadingBangKept | src/elektropy/digitals/truth_table.py:13-23 | a prefix `!` after an operator, as in the docstring's `A*!B`, is handled by no rewrite and reaches `eval` unchanged, the text in front translated on its own |
| TruthTable.ToPython | src/elektropy/digitals/truth_table.py:15-34 | the step-by-step rewriting, loop included, produces the specified Python text |
| TruthTable.Product | src/elektropy/digitals/truth_table.py:39 | `itertools.product([0,1], repeat=n)` has `2^n` rows |
| TruthTable.ProductCounts | src/elektropy/digitals/truth_table.py:39 | row `k` of `itertools.product([0,1], repeat=n)` is `k` in binary, first variable as high bit |
| TruthTable.Bits | src/elektropy/digitals/truth_table.py:48 | the digits of row `k` are `n` values, each 0 or 1 |
| TruthTable.BitsValue | src/elektropy/digitals/truth_table.py:48 | the digits printed for row `k` stand for `k` |
| TruthTable.Env | src/elektropy/digitals/truth_table.py:40 | the environment binds exactly the listed variables |
| TruthTable.EnvBinds | src/elektropy/digitals/truth_table.py:40 | each variable is bound to `combo[i] != 0`, its last listing deciding |
| TruthTable.Cell | src/elektropy/digitals/truth_table.py:42-46 | the cell is `0` or `1` exactly when the evaluation gave a value, `1` exactly for a true one; a failed evaluation shows `Error: ` followed by its message |
| TruthTable.Table | src/elektropy/digitals/truth_table.py:36-51 | the loop appends row after row (`Header`, then `Row` per assignment); the table is `TableLines` joined by line breaks (`Join` is `str.join`) |
| TruthTable.TableSize | src/elektropy/digitals/truth_table.py:37-39 | the table has `2 + 2^n` lines |
| TruthTable.TableHead | src/elektropy/digitals/truth_table.py:36-37 | the header is the variables joined by two spaces, ` \| ` with two spaces either side, and the expression verbatim; the separator is `-` repeated to the header's length |
| TruthTable.TableRow | src/elektropy/digitals/truth_table.py:39-49 | row `k` shows the digits of `k` and the result of evaluating with each variable bound to its digit |
| TruthTable.RowIsolation | src/elektropy/digitals/truth_table.py:42-49 | a failing evaluation changes only its own row |
| TruthTable.TableBreaks | src/elektropy/digitals/truth_table.py:51 | the joined table has one line break fewer than it has lines, when no input holds a break |
| BasicFunctions.PowerVI | src/elektropy/circuits/basic_functions.py:1-8 | the power is in W and zero exactly when the voltage or the current is |
| BasicFunctions.PowerRI | src/elektropy/circuits/basic_functions.py:10-17 | the power is in W and not negative for a non-negative resistance |
| BasicFunctions.PowerRV | src/elektropy/circuits/basic_functions.py:19-30 | fails with "Resistance cannot be zero." exactly when R = 0; otherwise W, not negative for R > 0 |
| BasicFunctions.PowerConsistent | src/elektropy/circuits/basic_functions.py:1-30 | with V = I·R the three power formulas agree |
| BasicFunctions.PowerExamples | tests/test_circuits.py:69-78 | (5, 10) gives 50, 500 and 20 W |
| BasicFunctions.VoltageDivider | src/elektropy/circuits/basic_functions.py:32-47 | fails with its message exactly when R1 + R2 = 0; otherwise a voltage |
| BasicFunctions.CurrentDivider | src/elektropy/circuits/basic_functions.py:49-64 | fails with its message exactly when R1 + R2 = 0; otherwise a current |
| BasicFunctions.VoltageDividerSplits | src/elektropy/circuits/basic_functions.py:47 | the voltages over R1 and R2 add up to V_in, and each is the series current through its resistor |
| BasicFunctions.CurrentDividerSplits | src/elektropy/circuits/basic_functions.py:64 | the currents through R1 and R2 add up to I_in, and both branches see the same voltage |
| BasicFunctions.DividersHalve | tests/test_circuits.py:81-96 | equal resistors give half the input |
| BasicFunctions.DividerExamples | test.py:36-37 | (12, 1000, 2000) gives 4 V, (0.03, 1000, 2000) gives 0.02 A; zero resistors fail |
| Resistance.SeriesResistance | src/elektropy/circuits/resistance.py:3-11 | the result is in Ω |
| Resistance.SeriesChains | src/elektropy/circuits/resistance.py:11 | a chain of two chains is the sum of the two |
| Resistance.SeriesExceeds | src/elektropy/circuits/resistance.py:11 | positive resistors in series amount to at least each of them, and to more than each when there are two or more |
| Resistance.SeriesExample | tests/test_circuits.py:22-26 | (10, 20, 30) gives 60; none gives 0 |
| Resistance.ParallelResistance | src/elektropy/circuits/resistance.py:13-23 | a zero resistor raises the division error; a zero reciprocal sum gives bare `inf`; otherwise the result times the reciprocal sum is 1 |
| Resistance.ParallelOfNone | src/elektropy/circuits/resistance.py:23 | no resistors give bare `inf` |
| Resistance.ParallelGroups | src/elektropy/circuits/resistance.py:22 | conductances add: two groups in parallel combine their combinations |
| Resistance.ParallelOfTwo | tests/test_circuits.py:29-34 | two resistors give R1·R2/(R1+R2) |
| Resistance.ParallelOfEqual | tests/test_circuits.py:37-42 | `n` equal resistors give R/n |
| Resistance.ParallelBelow | src/elektropy/circuits/resistance.py:22-23 | positive resistors in parallel combine to a positive value no larger than each, and smaller than each when there are two or more |
| Resistance.ParallelExamples | tests/test_circuits.py:29-42 | (10, 20) gives 20/3, (5, 5, 5) gives 5/3, a zero resistor raises |
| Wheatstone.WheatstoneVoltage | src/elektropy/sensory/wheatstone.py:1-16 | unguarded: a zero divisor raises the division error; otherwise a voltage |
| Wheatstone.BridgeBalance | src/elektropy/sensory/wheatstone.py:12-15 | the output is zero exactly when R·R2 = R1·R3 |
| Wheatstone.VoltageExamples | tests/test_sensory.py:12-30 | four equal resistors give 0 V; (150, 100, 100, 100, 5) gives 0.5 V |
| Wheatstone.BalanceVoltage | src/elektropy/sensory/wheatstone.py:18-29 | unguarded: R + R1 = 0 raises the division error; otherwise a voltage |
| Wheatstone.BalanceIsFullBridge | src/elektropy/sensory/wheatstone.py:1-29 | the half bridge reads the same as the full bridge with R2 = R3 = R1, wherever the full bridge is defined |
| Wheatstone.BalanceVoltageZero | src/elektropy/sensory/wheatstone.py:28 | the output is zero exactly when R = R1 |
| Wheatstone.BalanceVoltageExample | tests/test_sensory.py:33-39 | (120, 100, 5) gives (20/220)·2.5 V |
| Wheatstone.WheatstoneResistanceAsWritten | src/elektropy/sensory/wheatstone.py:31-50 | `Vin cannot be zero` first, then `R1 + R2 cannot be zero`; a zero divisor past both guards raises the division error |
| Wheatstone.AsWrittenInvertsSwapped | src/elektropy/sensory/wheatstone.py:49 | the formula inverts the bridge whose R1 and R3 are exchanged |
| Wheatstone.AsWrittenRoundTripWhenSymmetric | tests/test_sensory.py:42-50 | with R1 = R3 the same-argument round trip holds for every R |
| Wheatstone.AsWrittenRoundTripFails | src/elektropy/sensory/wheatstone.py:49 | (150, 100, 100, 50, 5) gives 1.25 V, read back as 140 Ω |
| Wheatstone.AsWrittenUnguardedDivisor | src/elektropy/sensory/wheatstone.py:44-49 | both guards pass and the divisor is zero at (2.5, 100, 100, 100, 5) |
| Wheatstone.WheatstoneResistance | src/elektropy/sensory/wheatstone.py:31-50 | the corrected inverse, with the same guards and messages, fails exactly where its divisor is zero |
| Wheatstone.RoundTrip | src/elektropy/sensory/wheatstone.py:12-49 | the sensor is recovered from the bridge's output |
| Wheatstone.RoundTripBack | src/elektropy/sensory/wheatstone.py:12-49 | the output is recovered from the sensor |
| Wheatstone.BalanceResistance | src/elektropy/sensory/wheatstone.py:52-63 | unguarded: V_in = 2·dV raises the division error; otherwise a resistance |
| Wheatstone.BalanceRoundTrip | tests/test_sensory.py:62-69 | the balance voltage of the balance resistance is dV |
| Wheatstone.BalanceRoundTripBack | src/elektropy/sensory/wheatstone.py:28-62 | the balance resistance of the balance voltage is R |

## Left out

- `sp.symbols` and `sp.sympify` are not modelled: SymPy's parser and its symbol table are a parameter, given the rewritten text and the variable names. No lemma says which rewritten texts SymPy accepts. One example: `((A+B)!*C)!` keeps its outer `!`, because the group loop only reduces parenthesis-free bodies.
- SymPy's `simplify_logic` is not modelled: boolean minimisation is a parameter, given the expression and the form. It returns the minimised expression or the exception it raises, and `simplify_logic` passes such an exception on.
- SimplifyLogic.Simplify: `sympify` is modelled as returning a boolean expression or an exception. A text that SymPy parses to something else, such as `2` to an integer, is not represented, so the fall-back `return str(e)` of `sympy_to_digital` (simplify_logic.py:77) is not modelled for such objects.
- SimplifyLogic.SimplifyLogic: its `lit` argument chooses the rendering of constants. The code as written is `lit = PythonStr`; `NotationDigits` is the corrected renderer.
- Python's `eval` in the truth table is not modelled: it is a parameter, given the Python text and the row's environment. So the two files' different precedence for `~` appears only in their texts. In the simplifier it sits beside `&`/`|`; in the truth table beside `and`/`or`.
- Number formatting is not modelled: the functions return one f-string, like `"50.0 W"`, and the model returns the value and its unit. Python's rendering of floats and IEEE rounding are not modelled either, because the formulas are over exact reals.
- `\w` is read as ASCII `[A-Za-z0-9_]`, not Unicode.
- There are no end-to-end string examples of the rewriting pipelines, because the solver cannot evaluate them within its limits. `NotBlocksXor` states the `B~A!` case for every front piece `p` that ends in a word character, holds no `!` and closes every `(` it opens, and for every operand and rest.
- The `\b` of `re.sub(r"\b0\b", ...)` counts a non-ASCII letter as a non-word character. This follows from the ASCII reading above.
- Node voltage, mesh current, pt100, base conversions and Thevenin/Norton are not part of this model.
- BasicFunctions.PowerVI: its own contract states only the unit and when the power is zero. The value V·I is tied to the other formulas by `PowerConsistent`.
- Resistance.SeriesResistance: its own contract states only the unit. The sum is described by `SeriesChains`, `SeriesExceeds` and `SeriesExample`.

## Findings

| source | as written | input that shows it | evidently intended | confidence | as-written member | corrected member |
|---|---|---|---|---|---|---|
| src/elektropy/digitals/simplify_logic.py:54-57 | `e is BooleanTrue` compares with the class, never with SymPy's `true`, so constants fall through to `str(e)` at :77 | a simplification to the constant true renders `True`, which reads back as a variable named `True` | render `1` and `0` | high, not executed | SimplifyLogic.SimplifyConstantAsWritten | SimplifyLogic.SimplifyConstantCorrected |
| src/elektropy/sensory/wheatstone.py:49 | the formula inverts `wheatstone_voltage` with R1 and R3 exchanged | R = 150, R1 = R2 = 100, R3 = 50, V_in = 5: V_out = 1.25 is read back as 140, not 150 | R = R3·(V_in·R1 + V_out·(R1+R2)) / (V_in·R2 − V_out·(R1+R2)) | medium, not executed | Wheatstone.AsWrittenRoundTripFails | Wheatstone.RoundTrip |
