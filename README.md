# pegparser in Dafny

A model of the PEG combinator interpreter in `pegparser/__init__.py`, with proofs about it. It covers:

- **Terminals.** `defGrammar` and `PEG.grammar` match a regular expression at the start of the input, optionally after the input's leading whitespace is stripped.
- **Combinators.** `PEG.sequence`, `ordered`, `zeroOrMore`, `oneOrMore`, `optional`, `andPred` and `notPred` each build a `_parser(src, ast, isSkip)` closure. A closure returns `(flag, remaining)` and appends `(name, value)` entries to the list its caller hands it.
- **The reducer.** `_reduceListVals` / `_toStr` reduces a node's collected entries when `isConv` is set: to the concatenation of their texts when every value is a string (otherwise `join` raises), except that exactly two entries reduce to the second entry itself.
- **The entry point.** `PEG.parse` runs one grammar, or a list of grammars, over an input.

The model has two layers.

- **The meaning, as functions.**
  - `Semantics.Eval` gives what a closure does: its `(flag, remaining)` pair, the entries it appends, or the Python exception it raises. The function is defined one grammar kind at a time (`EvalTerminal`, `EvalSequence`, …).
  - The combinators' loops are the recursive functions `EvalSeq`, `EvalAlt` and `EvalStar`.
  - `PegParse` / `ParseList` give the meaning of `PEG.parse`.
- **The code, as methods.**
  - `Interpreter.Invoke` and the per-kind `InvokeXxx` methods run the closures as the source does. They reassign `src` in `for`/`while` loops and append in place to a caller-supplied `AstList`, a class whose `entries` field is the Python list, passed by reference.
  - `Interpreter.Parse` and `ParseMany` are `PEG.parse`.
  - Each method is proved to return what `Eval` (or `PegParse`) says. It leaves the caller's list as it was, followed by exactly the entries `Eval` says it appends.
- **The properties.** The modules `Properties` and `Invariants` prove the promised behaviour about the functions.
- **Concrete runs.** `Scenarios` replays the repository's own tests as concrete runs.

Modelling decisions:

- **The regular-expression engine** is a parameter `m: Matcher`. `m(pattern, text)` is `Some(n)` when the pattern matches the first `n` characters of `text`, and `None` otherwise. The type only requires `n <= |text|`. An empty match counts as a success, since a Python match object is truthy even when it is empty.
- **The effective `isSkip`** handed to a child is `true` when the caller's own is true. Otherwise the child uses the default it was built with (`Grammar.ChildSkip`).
- **Python values** are `Values.PyVal`: a `str`, a `list`/`tuple` (treated alike), or any other object. The entry `(name, v)` is the two-element list `List([Str(name), v])`. This makes the reducer's "a two-element list yields its second element" rule apply to entries, exactly as in the code.
- **Exceptions** are explicit outcomes (`Semantics.Exc`):
  - `NoneAppend`: a collecting node run under `andPred`/`notPred`, which pass `None` for the list, calls `None.append`.
  - `JoinTypeError`: `"".join` meets an element that is not a string.
  - `InvalidGrammar`: `PEG.parse` reaches a list element that is not a grammar.
- **Non-termination.** The repetition loops of `zeroOrMore` and `oneOrMore` stop only when the child reports `False`. The model bounds every loop by a `fuel` count of child calls and returns `OutOfFuel` when the bound is hit. `Invariants.FuelMonotone` shows that the bound never changes a result that is reached. `Invariants.RepetitionDiverges` and `Invariants.ZeroOrMoreTerminates` say when a loop stops.

The source's comments (`# sequence: e1 e2`, `# ordered choice: e1/e2`, `# zero or more: e1*` at pegparser/__init__.py:61, :78, :96) suggest the usual PEG reading. Where the code departs from it, the model follows the code:

- A `sequence` that fails keeps the input its successful children consumed; the input is not restored.
- `sequence`, `ordered` and `zeroOrMore` report `True` exactly when input remains, whatever their children reported. So does `oneOrMore` once its first attempt succeeds; when that attempt fails it reports `False` with its input, even when input remains.
- `_skipSpace` hands back the unstripped input when that input is all whitespace, because `isSkip and src.lstrip() or src` falls through on the empty string.
- A node whose local list holds exactly two entries reduces, under `isConv`, to its second entry rather than to a string.
- `PEG.parse` over a list returns `True` at the first grammar that reports `False`.

## Model

| member | source | states |
|---|---|---|
| Text.IsSpace | pegparser/__init__.py:25 | defines the characters `str.lstrip()` removes (those `str.isspace` accepts) |
| Text.LStrip | pegparser/__init__.py:25 | defines `src.lstrip()`: drop leading whitespace characters one at a time |
| Text.SkipSpace | pegparser/__init__.py:25 | defines `_skipSpace`: the stripped text when skipping is on and stripping leaves something, otherwise the input |
| Values.JoinStrs | pegparser/__init__.py:32 | defines `"".join` over the reduced parts, failing on a part that is not a string |
| Values.ToStr | pegparser/__init__.py:28-34 | defines `_toStr`: a string as is, the second element of a two-element list, the join of the reductions of any other list, `""` for any other value |
| Values.Entry | pegparser/__init__.py:44 | defines the pair `(name, value)` a node appends, as a two-element list |
| Grammar.PrefixMatcher | pegparser/__init__.py:41 | defines what is assumed of `re.match`: a match covers at most the whole text |
| Grammar.ChildSkip | pegparser/__init__.py:66 | defines the `isSkip` a combinator hands a child: `True` when its own is true, else the child's default (the same call shape at :83, :101, :119, :123, :143) |
| Grammar.BreakLine | pegparser/__init__.py:53 | the built-in `breakline` terminal, pattern `\n`, no skipping |
| Grammar.Space | pegparser/__init__.py:54 | the built-in `space` terminal, pattern `\s` |
| Grammar.Number | pegparser/__init__.py:55 | the built-in `number` terminal and its pattern |
| Grammar.Strings | pegparser/__init__.py:56 | the built-in `strings` terminal and its pattern, Japanese ranges included |
| Grammar.Symbols | pegparser/__init__.py:57 | the built-in `symbols` terminal and its pattern |
| Semantics.EvalTerminal | pegparser/__init__.py:39-46 | defines the terminal closure of `defGrammar` (and the identical one of `PEG.grammar`, :172-179): strip on request, match, append `(name, matched)` unless the list is `None`, return the rest |
| Semantics.Value | pegparser/__init__.py:70 | defines `_reduceListVals(_ast) if isConv else _ast`, with `join`'s `TypeError` as an outcome |
| Semantics.Finish | pegparser/__init__.py:69-73 | defines the shared tail of the collecting closures: append one entry when the local list is non-empty (`None.append` raising first), then report whether input remains |
| Semantics.Eval | pegparser/__init__.py:37-167 | defines `g.parse(src, ast, isSkip)` for every kind of grammar by dispatch to the closures below |
| Semantics.EvalSequence | pegparser/__init__.py:60-74 | defines the `sequence` closure: its loop from a fresh local list, then the shared tail |
| Semantics.EvalSeq | pegparser/__init__.py:65-68 | defines the `sequence` loop: run each child on what its predecessor left, stop at the first `False` |
| Semantics.EvalOrdered | pegparser/__init__.py:77-92 | defines the `ordered` closure |
| Semantics.EvalAlt | pegparser/__init__.py:82-86 | defines the `ordered` loop: each alternative on the same input, stop at the first `True` and adopt its remainder |
| Semantics.EvalZeroOrMore | pegparser/__init__.py:95-111 | defines the `zeroOrMore` closure |
| Semantics.EvalStar | pegparser/__init__.py:100-105 | defines the repetition loop, bounded by a number of calls: run the child until it reports `False` |
| Semantics.EvalOneOrMore | pegparser/__init__.py:114-135 | defines the `oneOrMore` closure: a failed first attempt returns `(False, src)`, otherwise the loop and the shared tail |
| Semantics.EvalOptional | pegparser/__init__.py:138-149 | defines the `optional` closure |
| Semantics.EvalAndPred | pegparser/__init__.py:152-158 | defines the `andPred` closure |
| Semantics.EvalNotPred | pegparser/__init__.py:161-167 | defines the `notPred` closure |
| Semantics.PegParse | pegparser/__init__.py:183-194 | defines `PEG.parse` on one grammar (`_r or _s == ''`) or on a list |
| Semantics.ParseList | pegparser/__init__.py:188-194 | defines the loop of `PEG.parse` over a list |
| Values.JoinStrsSpec | pegparser/__init__.py:32 | `"".join` over the parts succeeds exactly when every part is a string produced without an exception, and then yields their concatenation in order |
| Values.ReduceStringIsIdentity | pegparser/__init__.py:28-34 | `_toStr` returns a string unchanged and turns any value that is neither a string nor a list into `""`; reducing an already reduced string is a no-op |
| Values.ReducePair | pegparser/__init__.py:31 | a two-element list or tuple reduces to its second element, with no further reduction |
| Values.ReduceList | pegparser/__init__.py:30-32 | any other list reduces to the concatenation of its elements' reductions (the empty list to `""`), and raises exactly when one of those reductions is not a string |
| Values.ReduceTextEntries | pegparser/__init__.py:27-35 | a list of other than two `(name, text)` entries reduces to the concatenation of the texts: what an `isConv` node makes of collected terminal matches |
| Text.LStripSpec | pegparser/__init__.py:25 | `lstrip()` drops the leading run of whitespace and nothing else: the result is a suffix, everything dropped is whitespace, and the result does not start with whitespace |
| Text.SkipSpaceSpec | pegparser/__init__.py:25 | `_skipSpace` returns its input when skipping is off or the input is all whitespace; otherwise it returns the stripped input, which is non-empty; either way it returns a suffix of the input |
| Text.LStripEmptyIff | pegparser/__init__.py:25 | stripping yields the empty string exactly when the whole text is whitespace |
| Text.LStripIdempotent | pegparser/__init__.py:25 | stripping twice is stripping once |
| Interpreter.AstList.constructor | pegparser/__init__.py:64 | a fresh local list `_ast = []` is empty |
| Interpreter.AstList.Append | pegparser/__init__.py:70 | `ast.append(v)` adds `v` at the end and keeps every earlier entry |
| Interpreter.Conclude | pegparser/__init__.py:69-73 | the shared tail of the collecting closures returns what `Finish` says and appends to the caller's list exactly the entry `Finish` emits |
| Interpreter.Invoke | pegparser/__init__.py:39-46 | running any grammar's closure (the terminal's directly, the others through their methods) returns `Eval`'s `(flag, remaining)` or exception, and extends the caller's list by exactly `Eval`'s entries |
| Interpreter.InvokeSequence | pegparser/__init__.py:63-73 | the `sequence` loop, with the local list mutated in place by the children, agrees with `Eval` |
| Interpreter.InvokeOrdered | pegparser/__init__.py:80-91 | the `ordered` loop agrees with `Eval` |
| Interpreter.InvokeZeroOrMore | pegparser/__init__.py:98-110 | the `zeroOrMore` `while True` loop agrees with `Eval`, including running out of fuel |
| Interpreter.InvokeOneOrMore | pegparser/__init__.py:117-134 | the first attempt followed by the `while True` loop of `oneOrMore` agrees with `Eval` |
| Interpreter.InvokeOptional | pegparser/__init__.py:141-148 | the `optional` closure agrees with `Eval` |
| Interpreter.InvokeAndPred | pegparser/__init__.py:155-157 | the `andPred` closure, which hands its child `None`, agrees with `Eval` |
| Interpreter.InvokeNotPred | pegparser/__init__.py:164-166 | the `notPred` closure agrees with `Eval` |
| Interpreter.Parse | pegparser/__init__.py:183-194 | `PEG.parse` returns `PegParse`'s boolean or exception and extends the caller's list by exactly the entries `PegParse` records |
| Interpreter.ParseMany | pegparser/__init__.py:188-194 | the `for` loop of `PEG.parse` over a list, reassigning `_src`, agrees with `ParseList`, keeping the entries of the grammars that ran before an exception |
| Invariants.RestIsSuffix | pegparser/__init__.py:60-167 | whatever any closure reports, the remaining input it returns is a suffix of its input |
| Invariants.TerminalRestIsSuffix | pegparser/__init__.py:39-46 | a terminal returns a suffix of its input, matched or not |
| Invariants.SeqRestIsSuffix | pegparser/__init__.py:65-68 | the `sequence` loop ends on a suffix of its input |
| Invariants.AltRestIsSuffix | pegparser/__init__.py:82-86 | the `ordered` loop ends on a suffix of its input |
| Invariants.StarRestIsSuffix | pegparser/__init__.py:100-105 | a repetition loop ends on a suffix of its input |
| Invariants.OneOrMoreRestIsSuffix | pegparser/__init__.py:117-134 | `oneOrMore` returns a suffix of its input |
| Invariants.FuelMonotone | pegparser/__init__.py:95-135 | a run that finishes within one fuel bound gives the same result under every larger bound |
| Invariants.StarFuelMonotone | pegparser/__init__.py:100-105 | the same for a repetition loop, where both the child's fuel and the calls left may grow |
| Invariants.StarStalls | pegparser/__init__.py:100-105 | a loop whose child reports `True` and hands back the loop's input unchanged spends every turn it is allowed |
| Invariants.RepetitionDiverges | pegparser/__init__.py:95-135 | a `zeroOrMore` or `oneOrMore` whose child succeeds without consuming input runs out of every large enough fuel bound: the code has no progress guard |
| Invariants.StarTerminates | pegparser/__init__.py:100-105 | a loop whose child never runs out of fuel and consumes input whenever it reports `True` stops within one call more than the input's length |
| Invariants.ZeroOrMoreTerminates | pegparser/__init__.py:98-110 | hence such a `zeroOrMore` never runs out of fuel once the fuel exceeds the input's length |
| Properties.TerminalSpec | pegparser/__init__.py:39-46 | a terminal strips first when asked, succeeds exactly when the pattern matches there, removes exactly the matched text, and appends one `(name, matched)` pair unless handed `None`; on no match it returns the possibly stripped input and appends nothing |
| Properties.FinishSpec | pegparser/__init__.py:69-73 | a collecting node appends one entry exactly when its local list is non-empty (the reduced value under `isConv`, else the raw list), raises `None.append` exactly when that list would go to `None`, raises in `join` exactly when the reduction does, and otherwise reports `True` exactly when input remains |
| Properties.CollectingFlag | pegparser/__init__.py:60-111 | `sequence`, `ordered` and `zeroOrMore` report `True` exactly when the final remaining input is non-empty, whatever their children reported |
| Properties.OneOrMoreFlag | pegparser/__init__.py:117-134 | once its first attempt succeeds, `oneOrMore` reports `True` exactly when the final remaining input is non-empty; when that attempt fails it returns `(False, input)` and appends nothing |
| Properties.EntriesOfNode | pegparser/__init__.py:37-167 | every closure appends at most one entry, that entry is named after the node and goes only to a list, and the predicates never append |
| Properties.NoneAst | pegparser/__init__.py:39-135 | a closure handed `None` instead of a list behaves as with a list that would stay empty. A terminal that would append just drops its entry. Any other node that would append raises `None.append` |
| Properties.SeqRun | pegparser/__init__.py:65-68 | the `sequence` loop hands each child the remainder its predecessor left and stops at the first child reporting `False`. It ends on the last successful child's remainder, without undoing earlier consumption, and keeps every entry in order |
| Properties.SeqChild | pegparser/__init__.py:66-68 | one turn of the `sequence` loop either moves on to the child's remainder or ends where the child started |
| Properties.SequenceIgnoresLater | pegparser/__init__.py:65-68 | children after the one at which a `sequence` stops are never run: two sequences that agree up to it behave alike |
| Properties.AltRun | pegparser/__init__.py:82-86 | every alternative is tried on the same input. The loop adopts the remainder of the first alternative reporting `True` and keeps the entries of the failed ones before it. When none succeeds, the input comes back unchanged |
| Properties.AltChild | pegparser/__init__.py:83-86 | one turn of the `ordered` loop either ends on the alternative's remainder or moves on to the next alternative with the same input |
| Properties.OrderedIgnoresLater | pegparser/__init__.py:82-86 | alternatives after the first one that reports `True` are never run |
| Properties.StarRun | pegparser/__init__.py:100-105 | a repetition loop re-applies the child to the advancing input until it reports `False`, within the calls allowed. It ends on the last remainder and keeps every entry appended along the way |
| Properties.StarChild | pegparser/__init__.py:101-105 | one turn of a repetition loop either continues from the child's remainder or ends where the child started |
| Properties.OneOrMoreIsZeroOrMore | pegparser/__init__.py:114-135 | once its first attempt succeeds, `oneOrMore(e)` behaves as `zeroOrMore(e)` with the same name and flags |
| Properties.OptionalSpec | pegparser/__init__.py:141-148 | `optional` always reports `True`. When its child fails it returns its input and appends nothing. When the child succeeds it adopts the child's remainder; if the child collected something it appends `(name, reduced-or-raw entries)`, or raises `None.append` when handed `None` and the `join` TypeError when the reduction fails. Exceptions pass through |
| Properties.PredicateSpec | pegparser/__init__.py:152-167 | `andPred` and `notPred` run their child with `None`. They return their original input, never append, and report the child's flag or its negation; exceptions pass through |
| Properties.ParseSingleVersusList | pegparser/__init__.py:183-194 | on a single grammar `PEG.parse` accepts when it reports `True` or consumed everything. On a list holding only that grammar it accepts when it reports `False` or consumed everything. The two disagree whenever input remains |
| Properties.ParseListContinue | pegparser/__init__.py:191-193 | a list element that reports `True` and leaves input passes its remainder to the next one |
| Properties.ParseListThreads | pegparser/__init__.py:188-193 | elements that each report `True` and leave input are run in order, each on its predecessor's remainder, with their entries appended in order |
| Properties.ParseListAllContinue | pegparser/__init__.py:188-194 | when every element reports `True` and leaves input, `PEG.parse` returns `False` |
| Properties.ParseListInvalid | pegparser/__init__.py:188-190 | reaching an element that is not a grammar raises `InvalidGrammarError`, with earlier entries kept |
| Properties.ParseListAccepts | pegparser/__init__.py:191-192 | `PEG.parse` returns `True` at the first element that reports `False` or consumes everything |
| Scenarios.DefGrammarExample | tests/pegtest.py:25-30 | `PEG.grammar('x', '1 ')` on `"1 and 2"` gives `(True, 'and 2')` and appends `('x', '1 ')` |
| Scenarios.AddCollects | tests/pegtest.py:34-35 | the `add` sequence on `"1 + 2"` collects the three matches and consumes everything |
| Scenarios.SequenceExample | tests/pegtest.py:32-37 | `PEG.parse('1 + 2', add)` is `True` and records `('add', '1 + 2')` |
| Scenarios.OrderedFirstExample | tests/pegtest.py:42-44 | the `num or str` choice on `'1 test'` records `'1'` |
| Scenarios.OrderedSecondExample | tests/pegtest.py:45-46 | on `'test 1'` it records `'test'` |
| Scenarios.OneOrMoreExample | tests/pegtest.py:60-62 | `oneOrMore('some', STRINGS)` on `'qwerty1uiop'` records `'qwerty'` |
| Scenarios.OptionalPresentExample | tests/pegtest.py:69-71 | `optional('option', NUMBER)` on `'1'` records `'1'` |
| Scenarios.OptionalAbsentExample | tests/pegtest.py:72-73 | on `' a'` it is accepted and records nothing |
| Scenarios.AndPredExamples | tests/pegtest.py:75-82 | `andPred` over `NUMBER` accepts `'1'`, rejects `'a'`, and records nothing |
| Scenarios.NotPredExamples | tests/pegtest.py:84-91 | `notPred` over `NUMBER` accepts `'a'`, rejects `'1'`, and records nothing |
| Scenarios.PairCollects | pegparser/__init__.py:65-68 | a skipping sequence of two numbers on `"1 2"` collects both matches, stripping before the second |
| Scenarios.PairSecond | pegparser/__init__.py:66 | its second turn strips the space before matching |
| Scenarios.TwoEntriesReduceToSecond | pegparser/__init__.py:31 | with exactly two collected entries `isConv` does not join them: the node's value is the second entry itself |
| Scenarios.PredicateOverCollectingChild | pegparser/__init__.py:152-158 | a predicate over a collecting sequence raises `None.append` |
| Scenarios.SequenceKeepsPartialProgress | pegparser/__init__.py:65-73 | a sequence whose second child fails keeps what the first consumed, reports `True` because input remains, and records the first match |

## Left out

- The regular-expression engine (`re.compile` / `.match`) is the uninterpreted `Matcher` parameter. The Unicode character classes of the built-in terminals are kept only as pattern strings.
- The match length is taken as the length of the matched text. The code's `len(str(m.group(0)))` is the same number for the string patterns used here.
- Non-termination of the repetition loops is modelled by a fuel bound and the `OutOfFuel` outcome, not by a method that may run forever.
- `PEG.parse` is modelled only with a list for its `ast` argument, as its annotation `ast: list` says; `PEG.parse(src, g, None)` is not modelled (`Properties.NoneAst` states what the closures do with `None`).
- A `TypeError` from `PEG.parse` when `grammars` is neither a grammar nor iterable is not modelled: the argument is a `Target`, one grammar or a sequence of items.
- The Python plumbing is not modelled: the `namedtuple` definitions (`PegGrammar`, the unused `AstNode`), `functools.wraps` and the module-level short names.
- samples/markdown.py and setup.py are not part of this model (a demo consumer and packaging). tests/pegtest.py appears only as the concrete runs in `Scenarios`.
- The `zeroOrMore` test on sixteen `'1'`s and the second `oneOrMore` test with spaces have no concrete scenario. They would need one matcher fact per character. `Properties.StarRun` states the loop they exercise for every input.
- A name registry, duplicate-name checks, empty-children errors, recursive grammars, memoization and a no-progress guard do not exist in the code and are not modelled.
