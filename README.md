# A verified model of a Python-to-SQF translator

The translator reads a Python program as an abstract syntax tree. It lowers
the tree node by node into SQF, the scripting language of Arma. A layout
pass (`indenter`) then breaks the flat output into indented lines.

There are two variants of the lowering rules:

- `compiler.py` is the fuller one.
- `utils.py` is the older one, which the command-line entry point imports.

This project models both variants and their shared layout pass, and proves
what each rule emits.

Modules:

| module | file | contents |
|---|---|---|
| `Results` | results.dfy | the outcome of lowering a node: `Ok(text)` or `Err(fault)`. A fault is a Python exception that aborts the whole translation. |
| `Ast` | ast.dfy | the node kinds the translator reads, plus catch-all constructors for the kinds it has no handler for. |
| `Text` | text.dfy | `str.join`, and Python's `str()` of an integer together with its reading back. |
| `Lexicon` | lexicon.dfy | the operator tokens, the `Constant` handler, and the pieces of the `Call`, `Delete`, `For` and `FunctionDef` handlers. The token handlers and the `Constant` handler read the same in both files (compiler.py:145-147, 166-198, 206-213, 224-251 and 78-92; utils.py:246-253, 261-293, 301-303, 330-357 and 388-402). |
| `Layout` | layout.dfy | the `indenter` pass. Its loop is a method with invariants; what its output lines are is proved about a specification function. |
| `Compiler` | compiler.dfy | the `translate` rules of compiler.py. The `JoinedStr` and `Assign` handlers are also methods with loops, proved against the function. |
| `Utils` | utils.dfy | the `translate` rules of utils.py. The `Assign` and `For` handlers are also methods. |
| `Scenario` | scenario.dfy | a three-statement program with an `if`/`else`, translated and laid out end to end. |
| `Grouping` | grouping.dfy | a reader for lowered arithmetic. It proves that compiler.py's parentheses keep the tree's grouping. |

How the model treats a node:

- A handler that logs "unsupported" and returns `""` gives `Ok("")`. The log message is dropped.
- Each of these gives `Err`:
  - a failing `assert`;
  - an explicit `raise RuntimeError`;
  - a `TypeError` or an `AttributeError`;
  - the fallback arm.
- The fallback formats the node with the spec `r`, which `object.__format__` rejects, so an unhandled node kind is fatal rather than empty.

Where the code does something other than one might expect from the handlers' names and templates, the model follows the code:

- A counted `for` loop is `do{body};`, with no space before the brace.
- A function is `name = {params [...];body};`, with no space after the `;`.
- Assigning to `recv[k]` as written in compiler.py:344 emits `<rhs> set [k, <rhs>]`:
  - the right-hand side takes the receiver's place;
  - there is no closing `;`.
- An annotated assignment with a value reads `node.targets`, which `AnnAssign` does not have. That is an `AttributeError`. Without a value it yields `""`.
- One might expect these to degrade to `""` like the other unsupported forms. In the code they are fatal:
  - non-constant slice bounds (an `assert` in compiler.py);
  - non-constant `range` arguments (an `assert` in compiler.py, `RuntimeError` in utils.py);
  - a compound target of `+=` and similar (an `assert` in compiler.py, `RuntimeError` in utils.py).
- An index or a slice bound is written with Python's `str()` of the constant's value, not lowered (`Lexicon.PyStr`). So `s["k"]` is `_s select k`, and a `bool` bound counts as 0 or 1 in `upper - lower`.
- The `Subscript` handler lowers the container only on the paths that print it. A failing container therefore fails only those paths (`Compiler.LowerSubscript`).

## Model

| member | source | states |
|---|---|---|
| Lexicon.BinOpToken | compiler.py:166-198 | `+ - * / / mod ^` for the seven handled operators; every other operator is the fatal fallback |
| Lexicon.BinOpTokenCollisions | compiler.py:181-188 | two handled operators share a token exactly when they are equal or are `/` and `//` |
| Lexicon.UnaryOpToken | compiler.py:145-147 | only `not` has a token, `!`; any other unary operator is fatal |
| Lexicon.BoolOpToken | compiler.py:206-213 | the separator is four characters with spaces at both ends, and is ` && ` exactly for `and` |
| Lexicon.CmpOpToken | compiler.py:224-251 | the six comparisons have tokens; `is`, `in` and their negations are fatal |
| Lexicon.CmpOpTokenInjective | compiler.py:224-251 | different comparisons have different tokens |
| Lexicon.LowerConstant | compiler.py:78-92 | a string is wrapped in double quotes unescaped; the output is empty exactly for `...` and the unsupported kinds |
| Lexicon.LowerConstantRoundTrip | compiler.py:78-92 | `nil`, `true`/`false`, integers and quote-free strings read back to the same constant (utils.py:388-402 is the same handler) |
| Lexicon.NumericValue | compiler.py:318 | Python's `-` accepts exactly `int` and `bool` bounds |
| Lexicon.ParamNames | compiler.py:478 | one `"_name"` per positional parameter, in declared order |
| Lexicon.PyStr | compiler.py:301-318 | the definition of Python's `str()` of a constant, as the `Subscript` and `For` handlers write an index or bound; its integer case reads back by Text.IntTextRoundTrip |
| Lexicon.RangeBounds | compiler.py:413-423 | the definition of the `match len(args)` that picks start, stop and step, defaulting to 0 and 1, and keeping 0, 0, 1 for any other count; stated for every count by Compiler.ForRangeLowering |
| Lexicon.ForEachBinding | compiler.py:431-440 | the definition of the loop variable's rebinding, empty for `x`; stated by Compiler.ForEachLowering |
| Lexicon.LowerDelete | compiler.py:359-370 | the definition of the `Delete` rule; Lexicon.TranslateDelete proves the handler's loop equal to it |
| Lexicon.TranslateDelete | compiler.py:359-370 | the loop emits one `_t = nil;` per target, or `""` as soon as a target is not a name (utils.py:107-118 is the same loop) |
| Text.IntTextRoundTrip | compiler.py:89-90 | the decimal text `str()` gives an integer reads back to that integer |
| Text.IntTextInjective | compiler.py:89-90 | different integers have different texts |
| Layout.CollapseNewlines | compiler.py:40 | the definition of `replace("\n\n", "\n")`, left to right without overlap; Layout.RejoinedLines and Layout.ResplitChained state what it does to the expanded text |
| Layout.SplitLinesFrom | compiler.py:41 | the definition of `str.splitlines`, with `\r\n` one break and no empty last line; Layout.LinesWellSplit states what its lines hold |
| Layout.Lines | compiler.py:36-41 | the definition of the lines the loop visits; stated by Layout.LinesWellSplit, Layout.RejoinedLines and Layout.ResplitChained |
| Layout.Step | compiler.py:43-52 | the definition of the depth after a line; stated by Layout.DepthChange and Layout.DepthIsBraceBalance |
| Layout.Level | compiler.py:43-52 | the definition of the depth a line is printed at; stated by Layout.DepthChange and Layout.LevelIsNesting |
| Layout.IndentedLines | compiler.py:36-53 | the definition of the printed lines; Layout.Indenter proves the loop equal to it and Layout.IndentedLinesShape states their shape |
| Layout.Indenter | compiler.py:31-53 | the loop with its depth counter produces `"\n".join` of the specified indented lines (utils.py:39-61 is the same pass) |
| Layout.IndentIsSpaces | compiler.py:44-50 | the indentation of level `n` is `4 * max(n, 0)` spaces |
| Layout.IndentedLinesShape | compiler.py:36-53 | one output line per split line, in order; each is `4 * max(d, 0)` spaces, then the line unchanged |
| Layout.DepthChange | compiler.py:43-52 | depth rises by one only after an opener-only line and falls by one only at a closer-only line; a line with both braces prints at `d - 1` and keeps `d` |
| Layout.ReplacementsExpand | compiler.py:37-39 | the three replacements act on each character independently |
| Layout.LinesWellSplit | compiler.py:36-42 | every split line holds no line break, has `{` and `;` only at its end and `}` only at its start |
| Layout.DepthIsBraceBalance | compiler.py:43-52 | over such lines the depth is the count of `{` minus the count of `}` seen |
| Layout.LevelIsNesting | compiler.py:36-53 | line `i` is printed at the brace nesting of the text before it, one level out when it starts with `}` |
| Layout.FinalDepth | compiler.py:36-53 | the final depth is the number of `{` minus the number of `}` in the input |
| Layout.RejoinedLines | compiler.py:36-42 | the split lines put back together are the input without its line breaks; for an input without line breaks they are the input itself |
| Layout.ResplitChained | compiler.py:36-42 | lines that each end in `{` or `;` or are followed by a `}` line, and hold braces and `;` only at their ends, split back into exactly themselves once concatenated |
| Compiler.TranslateExpr | compiler.py:62-321 | the definition of `translate` on expressions, one arm per handler and the fatal fallback; each arm is stated by the `…Lowering` lemma for its node kind below |
| Compiler.TranslateStmt | compiler.py:324-485 | the definition of `translate` on statements, one arm per handler; each arm is stated by the `…Lowering` lemma for its node kind below |
| Compiler.TranslateBody | compiler.py:68-70 | the definition of `"".join(translate(child) ...)` over a body; stated by Compiler.TranslateBodyConcat |
| Compiler.LowerSubscript | compiler.py:299-321 | the definition of the `Subscript` rule; stated by Compiler.SubscriptIndex, SliceUnsupported, SliceBounds and SliceFaults |
| Compiler.LowerAssign | compiler.py:324-348 | the definition of the `Assign` rule; Compiler.TranslateAssign proves the handler's loop equal to it and Compiler.AssignLowering states its outcomes |
| Compiler.JoinedParts | compiler.py:109-121 | the definition of the loop's two lists; stated by Compiler.JoinedPartsNumbering and Compiler.JoinedPartsSucceed |
| Compiler.UnhandledKindsAreFatal | compiler.py:62-65 | starred, slice, dict and unknown expressions, other unary operators and unknown statements abort the translation |
| Compiler.TranslateBodyConcat | compiler.py:68-70 | a body is its statements' outputs concatenated in order, and fails exactly when one of them fails |
| Compiler.JoinedStrLowering | compiler.py:103-121 | all-`str`-constant f-strings concatenate without quotes; other all-constant ones fail `str.join`; a mixed one succeeds exactly when its constant parts are strings and its formatted parts lower, and is then a `format` call listing one value per formatted part |
| Compiler.JoinedPartsSucceed | compiler.py:109-121 | the loop over the parts succeeds exactly when every formatted part lowers |
| Compiler.FormattedValueLowering | compiler.py:95-100 | a value with a conversion or a format spec gives `""`; otherwise it is the inner expression's text, failing when that fails |
| Compiler.FormattedPartValue | compiler.py:95-121 | inside an f-string, the `k`-th part's placeholder is numbered by its rank, and the value at that rank is `""` for a conversion or spec and the inner expression's text otherwise |
| Compiler.JoinedPartsNumbering | compiler.py:109-121 | constant parts stay in place; the `k`-th formatted part becomes `%(1 + number of formatted parts before it)`, and its lowered value is at that rank in the list |
| Compiler.TranslateJoinedStr | compiler.py:103-121 | the loop with its counter and two lists computes the `JoinedStr` rule |
| Compiler.FormatExample | compiler.py:103-121 | `f"a{x}b{y}"` is `format ["a%1b%2", _x, _y]` |
| Compiler.ListLowering | compiler.py:124-127 | lists and tuples are `[e1, e2, ...]` of the lowered elements, and fail exactly when an element fails |
| Compiler.TranslateAllElements | compiler.py:124-127 | the lowered elements are each element's own text, in order |
| Compiler.NamesAndGlobals | compiler.py:130-132 | a name `x` is `_x`; `GLOBAL.attr` is the bare `attr` |
| Compiler.SimpleStatements | compiler.py:135-137 | an expression statement is its expression plus `;`, failing exactly when the expression fails; `pass` is empty (compiler.py:373-375); `break` and `continue` are `break;` and `continue;` (compiler.py:454-461) |
| Compiler.UnaryOpLowering | compiler.py:140-147 | `not x` is `!` glued to `x`, and fails exactly when `x` fails; other operators are fatal |
| Compiler.BinOpLowering | compiler.py:150-163 | fails exactly when an operand fails or the operator has no token; otherwise `L op R`, with an operand in parentheses exactly when it is itself a `BinOp` |
| Compiler.BoolOpLowering | compiler.py:201-213 | the operands' texts joined by ` && ` or ` \|\| `, failing exactly when an operand fails |
| Compiler.CompareLowering | compiler.py:216-221 | other than exactly one comparator gives `""`; one gives the non-empty `left op right`, and succeeds exactly when both operands and the operator do |
| Compiler.CallLowering | compiler.py:254-279 | keywords, then starred arguments, give `""`; a named callee gives `a call f` or `[a1, ...] call f`, failing with the argument; a method callee gives `m a` or `m [a1, ...]`, and fails exactly when the callee or an argument fails, with the fault of the part lowered first that fails (the callee for one argument, the arguments otherwise); any other callee gives `""` |
| Compiler.IfExpLowering | compiler.py:282-288 | `if (c) then {b} else {o};`, failing exactly when a part fails |
| Compiler.AttributeLowering | compiler.py:291-296 | any other attribute is `receiver attr`; a failing receiver fails it |
| Compiler.SubscriptIndex | compiler.py:301-302 | a constant index is `recv select k`, with `str()` of `k` |
| Compiler.SliceUnsupported | compiler.py:304-320 | a step or a missing bound gives `""`; non-constant bounds fail the assertion |
| Compiler.SliceBounds | compiler.py:315-318 | constant numeric bounds `lo:hi` give `recv select [lo, hi - lo]` |
| Compiler.SliceFaults | compiler.py:315-318 | a failing container fails the slice first; otherwise a non-numeric bound is a type error |
| Compiler.SliceBoundsReadBack | compiler.py:315-318 | for integer bounds the slice is `recv select [lo, len]`, where `lo` reads back to the start and `lo` plus `len` read back is the exclusive end |
| Compiler.SliceExample | compiler.py:318 | `seq[2:5]` is `_seq select [2, 3]` |
| Compiler.TranslateAssign | compiler.py:324-348 | the loop over the targets computes the `Assign` rule, including the early `""` and a raising right-hand side |
| Compiler.AssignLowering | compiler.py:324-348 | name targets give `_t = rhs;` each, in order; a right-hand side that fails at an accepted first target fails the statement with its fault; otherwise a rejected target anywhere gives `""` |
| Compiler.AcceptedTargetsLowering | compiler.py:333-348 | when every target is a name or a constant-index subscript, the statement is their pieces in order (`_t = rhs;`, or `rhs set [k, rhs]` as written), or the right-hand side's fault when it fails; no targets give `""` |
| Compiler.SubscriptAssignAsWritten | compiler.py:341-344 | `recv[k] = v` emits `v set [k, v]`, which does not depend on `recv` |
| Compiler.AnnotatedAssignment | compiler.py:324-333 | without a value `""`; with one the missing `targets` field is fatal |
| Compiler.AugAssignLowering | compiler.py:351-356 | `t op= v` is `_t = _t op v;`, failing exactly when the operator has no token or the value fails, with that fault; a non-name target fails the assertion |
| Compiler.DeleteLowering | compiler.py:359-370 | each name target gives `_t = nil;`, in order; any other target gives `""` |
| Compiler.IfLowering | compiler.py:378-389 | `if (c) then {b} else {o};` with an else branch, `if (c) then {b};` without; fails exactly when the test or a branch fails, with the fault of the first of test, body and else branch that fails |
| Compiler.ForRangeLowering | compiler.py:392-429 | an `else` gives `""`; non-constant `range` arguments fail the assertion; then a non-name target gives `""`; one, two or three arguments give stop; start and stop; or start, stop and step, defaulting to 0 and 1; any other count gives `from 0 to 0 step 1`; the loop fails exactly when its body fails, with that fault |
| Compiler.RangeExample | compiler.py:399-429 | `for i in range(2, 10, 2): pass` is `for "_i" from 2 to 10 step 2 do{};` |
| Compiler.ForEachLowering | compiler.py:431-440 | over other iterables a non-name target gives `""`; a name gives a `forEach` block that rebinds the loop variable from `_x` exactly when it is not `x`; it fails exactly when the body or the iterable fails, the body's fault first |
| Compiler.WhileLowering | compiler.py:443-451 | an `else` gives `""`; otherwise `while {c} do {b};`, failing exactly when the test or the body fails, the test's fault first |
| Compiler.FunctionDefLowering | compiler.py:464-480 | keyword-only or default parameters, then decorators, give `""`; otherwise `f = {params ["_a", "_b"];body};` with the parameters in declared order, and a failing body fails the definition with its fault |
| Compiler.FunctionDefExample | compiler.py:464-480 | `def f(a, b): return a + b` is `f = {params ["_a", "_b"];_a + _b};` |
| Compiler.ReturnLowering | compiler.py:483-485 | `return v` is the bare text of `v`; a bare `return` is empty |
| Scenario.IfElseTranslation | compiler.py:68-70 | `x = 1; y = 2; if x < y: z = x + y else: z = x - y` lowers to the two assignments followed by `if (_x < _y) then {_z = _x + _y;} else {_z = _x - _y;};` |
| Scenario.IfElseLevels | compiler.py:43-52 | the seven lines of that output are indented by nesting: the two branch bodies by four spaces and everything else not at all |
| Scenario.IfElseScenario | compiler.py:31-70 | the program's translation splits into those seven lines, and the laid-out text is them joined by line breaks with the branch bodies indented |
| Compiler.ToSqf | compiler.py:56-59 | a failed translation fails; otherwise the output is the laid-out translation |
| Grouping.ArithText | compiler.py:150-163 | lowered arithmetic has balanced parentheses, and a binary operation's text contains a space |
| Grouping.TokenRead | compiler.py:166-198 | each token is one word and names its operator back, with `//` read as `/` |
| Grouping.OperandRoundTrip | compiler.py:152-162 | an operand reads back from its possibly parenthesised text |
| Grouping.BinOpRoundTrip | compiler.py:150-163 | `L op R` reads back to the operation once each operand reads back |
| Grouping.ArithRoundTrip | compiler.py:150-163 | lowered arithmetic over names and integers reads back to its tree, with `//` as `/` |
| Grouping.CompilerKeepsGrouping | compiler.py:150-163 | two arithmetic trees with the same text differ at most in `//` against `/` |
| Utils.TranslateExpr | utils.py:241-422 | the definition of `translate` on expressions, one arm per handler and the fatal fallback of utils.py:71-73; each arm is stated by the `…Lowering` lemma for its node kind below |
| Utils.TranslateStmt | utils.py:83-238 | the definition of `translate` on statements, one arm per handler; each arm is stated by the `…Lowering` lemma for its node kind below |
| Utils.LowerAssign | utils.py:121-142 | the definition of the `Assign` rule; Utils.TranslateAssign proves the handler's loop equal to it and Utils.AssignLowering states its outcomes |
| Utils.TranslateBodyConcat | utils.py:76-80 | a body is its statements' outputs concatenated in order, and fails exactly when one fails |
| Utils.FunctionDefLowering | utils.py:83-99 | as in compiler.py, including a failing body failing the definition, but the parameters are joined by `","`, and `async def` is fatal |
| Utils.FunctionDefExample | utils.py:83-99 | `def f(a, b): pass` is `f = {params ["_a","_b"];};` |
| Utils.DeleteLowering | utils.py:107-118 | each name target gives `_t = nil;`, in order; any other target gives `""` |
| Utils.TranslateAssign | utils.py:121-142 | the loop over the targets computes the `Assign` rule |
| Utils.AssignLowering | utils.py:121-142 | a missing value gives `""`; name targets give `_t = rhs;` each, in order; a right-hand side that fails at a name first target fails the statement with its fault, whatever the later targets; otherwise any non-name target gives `""` |
| Utils.AugAssignLowering | utils.py:145-151 | `t op= v` is `_t = _t op v;`, failing exactly when the operator or the value fails, with that fault |
| Utils.TranslateFor | utils.py:154-203 | the handler with `start`, `stop` and `step` reassigned by the `match` computes the `For` rule |
| Utils.ForLowering | utils.py:154-203 | an `else` gives `""`; non-constant `range` arguments raise; then a non-name target gives `""`; `range` arities take stop, start and stop, or all three, and any other count gives `from 0 to 0 step 1`; other iterables give `""` for a non-name target and otherwise a `forEach` block; each loop fails exactly when a part it lowers fails, with that part's fault |
| Utils.FatalErrors | utils.py:145-169 | the two `RuntimeError`s and every kind without a handler abort the translation, including subscripts, f-strings, `break` and `continue`; a dict display gives `""` |
| Utils.WhileLowering | utils.py:206-214 | an `else` gives `""`; otherwise `while {c} do {b};`, failing exactly when the test or the body fails, the test's fault first |
| Utils.IfLowering | utils.py:217-228 | `if (c) then {b} else {o};` with an else branch, `if (c) then {b};` without; fails exactly when the test or a branch fails, with the fault of the first that fails |
| Utils.SimpleStatements | utils.py:231-238 | an expression statement is its expression plus `;`; `pass` is empty |
| Utils.BoolOpLowering | utils.py:241-253 | the operands' texts joined by ` && ` or ` \|\| `, failing exactly when an operand fails |
| Utils.BinOpNoParentheses | utils.py:256-258 | `L op R` with no parentheses whatever the operands, failing exactly when a part fails |
| Utils.GroupingLost | utils.py:256-258 | `(a + b) * c` and `a + (b * c)` are different trees with the same text |
| Utils.UnaryOpLowering | utils.py:296-303 | `not x` is `!x`; other unary operators are fatal |
| Utils.IfExpLowering | utils.py:306-312 | `if (c) then {b} else {o};`, failing exactly when a part fails |
| Utils.CompareLowering | utils.py:322-327 | other than exactly one comparator gives `""`; one gives `left op right`, and succeeds exactly when both operands and the operator do |
| Utils.CallLowering | utils.py:360-385 | keywords, then starred arguments, give `""`; named callees give `a call f` or `[a1, ...] call f`, failing with the argument; method callees are as in compiler.py, failing exactly when the callee or an argument fails, with the fault of the part lowered first that fails; any other callee gives `""` |
| Utils.NamesAndAttributes | utils.py:405-415 | `x` is `_x`; `GLOBAL.attr` is `attr`; any other attribute is `receiver attr` |
| Utils.ListLowering | utils.py:418-422 | lists and tuples are `[e1, e2, ...]`, failing exactly when an element fails |
| Utils.TranslateAllElements | utils.py:418-422 | the lowered elements are each element's own text, in order |
| Utils.ToSqf | utils.py:64-67 | a failed translation fails; otherwise the output is the laid-out translation |

## Left out

- `main.py` (argument handling, version check, file input and output, exception logging) is not part of this model: it is input and output plumbing.
- `ast.parse` is an external parser. `to_sqf` is modelled on a tree that is already parsed (`Compiler.ToSqf`, `Utils.ToSqf`).
- Logging and its configuration: warnings and errors are dropped, and only the returned text is modelled.
- `float` and `complex` constants are not modelled, because their text comes from Python's float formatting. Integers are unbounded, as in Python.
- The `Interactive`, `Expression` and `FunctionType` handlers are not modelled, because `ast.parse` in its default mode only produces `Module`.
- Positional-only parameters, `*args` and `**kwargs` are carried in the tree but ignored, as both handlers ignore them.
- `string.Template` is modelled as concatenation of its fixed shapes. Each template's only `$` signs are its placeholders, so `substitute` is exactly that concatenation.
- Running Python with `-O` removes the `assert` statements. The model keeps them, so those branches are fatal.
- Escapes in string constants are not modelled: a string is its characters, wrapped in quotes.
- Lexicon.LowerConstantRoundTrip: stated only for strings without a double quote, because the handler does not escape one and such a string does not read back.

## Findings

| source | as written | input that shows it | evidently intended | confidence | as-written member | corrected member |
|---|---|---|---|---|---|---|
| utils.py:256-258 | `BinOp` prints its operands without parentheses, so the text does not determine the grouping | `(a + b) * c` gives `_a + _b * _c`, the same text as `a + b * c` | parenthesise nested operations, as compiler.py:150-163 does, so that `(a + b) * c` gives `(_a + _b) * _c` | not executed | Utils.GroupingLost | Grouping.ArithRoundTrip |
