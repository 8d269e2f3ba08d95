# MCDCgen in Dafny

MCDCgen is a small tool that reads boolean requirement expressions, written with
Python's syntax (`and`, `or`, `not`), and derives a Modified Condition/Decision
Coverage (MC/DC) test set for each one. This project models the tool's core and
proves properties of that model. The core has three parts:

- **`parse_conditions`** (module `ExpressionParser`):
  - It finds the identifier tokens of the expression with
    `\b[a-zA-Z_][a-zA-Z0-9_]*\b`.
  - It drops the keywords `and`, `or`, `not`, `True` and `False`, removes
    duplicates and sorts what is left.
  - It fails with a `ValueError` when nothing is left.
  - The scan is a recursive function over the text. Separate lemmas prove that
    the scan is sound and complete against the match predicate `TokenAt`.
  - `sorted(set(...))` is an insertion into a strictly ascending list. It is
    proved to be the only strictly ascending list with those elements.
- **`generate_truth_table`** (module `TruthTableGenerator`):
  - It enumerates every combination of truth values of the conditions, in the
    order of `itertools.product([False, True], repeat=n)`.
  - Each row is a dictionary from the condition names to their values, plus
    `Decision` set to `bool(eval(expression, {}, row))`.
  - There is no table at all when any evaluation raises.
  - The method `GenerateTruthTable` keeps the source's loop and its early
    return. It is proved equal to the function `TruthTable`, and the row, key,
    rank and bit-flip properties are proved about that function.
- **main.py** (module `McdcAnalysis`):
  - `run_mcdc_analysis` decides where an analysis stops and what it reports:
    - an input error;
    - no truth table;
    - no pairs at all;
    - some conditions without pairs;
    - a complete test set;
    - an incomplete selection;
    - an unexpected error.
  - The interactive loop strips each line and lower-cases it. `quit` ends the
    loop, a blank line is skipped and anything else is analysed.
  - The outcome of one analysis is the function `Analysis`, and the method
    `RunMcdcAnalysis` is proved equal to it. The loop is the method
    `InputLoop`, proved equal to the function `Session`.

Python's `eval` is a parameter of the model (`Evaluator`), and so are the MC/DC
engine's `find_mcdc_pairs` and `select_mcdc_test_set` (`PairFinder` and
`TestSelector`). Each of them may return a value or raise.

Two behaviours of the code are stated as lemmas:

- **The "only_keywords" self-test.** The self-test at
  `expression_parser.py:45-52` has a comment that expects
  `"only_keywords and or not"` to raise an error or give nothing. The code
  returns `["only_keywords"]`, because `only_keywords` is itself an identifier
  (`ParseConditionsOfOnlyKeywords`).
- **A condition named `Decision`.** Its value in a row is overwritten by the
  row's decision, because both share the key `Decision`
  (`DecisionConditionOverwritten`).

## Model

| member | source | states |
|---|---|---|
| ExpressionParser.FindIdentifiersAreIdentifiers | expression_parser.py:19 | every string the scan returns matches `[a-zA-Z_][a-zA-Z0-9_]*` in full |
| ExpressionParser.FindIdentifiersSound | expression_parser.py:19 | every string the scan returns is the text of a match with a word boundary on each side |
| ExpressionParser.FindIdentifiersComplete | expression_parser.py:19 | every match with a word boundary on each side, at or after the scan position, is returned |
| ExpressionParser.FindIdentifiersConcat | expression_parser.py:19 | scanning two texts joined outside a word gives the tokens of the first text followed by those of the second |
| ExpressionParser.LessTransitive | expression_parser.py:22 | Python's code-point order on strings is transitive |
| ExpressionParser.LessTotal | expression_parser.py:22 | any two different strings are ordered one way or the other |
| ExpressionParser.Insert | expression_parser.py:22 | inserting into a strictly ascending list keeps it strictly ascending, and its elements become the old ones plus the new one |
| ExpressionParser.SortUnique | expression_parser.py:22 | `sorted(set(xs))` is strictly ascending and has exactly the elements of `xs` |
| ExpressionParser.AscendingUnique | expression_parser.py:22 | two strictly ascending lists with the same elements are equal, so the sorted set is unique |
| ExpressionParser.ParseConditions | expression_parser.py:19-25 | a successful parse is non-empty and strictly ascending, and holds only identifiers that are not keywords |
| ExpressionParser.ParseConditionsSound | expression_parser.py:19-22 | every returned condition occurs in the expression as a whole identifier token |
| ExpressionParser.ParseConditionsComplete | expression_parser.py:19-22 | every identifier token that is not a keyword makes the parse succeed and is among the returned conditions |
| ExpressionParser.ParseConditionsFailsIff | expression_parser.py:21-24 | the `ValueError` is raised exactly when every identifier token is a keyword, or there is none |
| ExpressionParser.ParseConditionsIsSortedSet | expression_parser.py:21-22 | the result is the one strictly ascending list whose elements are the non-keyword tokens |
| ExpressionParser.ParseConditionsOfReset | expression_parser.py:29-31 | `(Reset or (M1 and M2)) and not Deactivate` parses to `Deactivate, M1, M2, Reset` |
| ExpressionParser.ParseConditionsOfAB | expression_parser.py:37-39 | `A and B` parses to `A, B` |
| ExpressionParser.ParseConditionsOfOnlyKeywords | expression_parser.py:45-49 | `only_keywords and or not` parses to `only_keywords` and does not fail |
| ExpressionParser.ParseConditionsOfKeywordsAlone | expression_parser.py:21-24 | `and or not` fails with no conditions found |
| ExpressionParser.ParseConditionsOfLeadingDigit | expression_parser.py:19 | in `1A or B2` the run `1A` is not a token, so only `B2` is a condition |
| TruthTableGenerator.Product | truth_table_generator.py:19 | the enumeration has `2^n` combinations, each of length `n` |
| TruthTableGenerator.ProductRank | truth_table_generator.py:19 | combination `i` spells `i` in binary, first condition most significant and `True` as 1 |
| TruthTableGenerator.RankProduct | truth_table_generator.py:19 | every combination of `n` truth values is the one at its rank |
| TruthTableGenerator.ProductExactlyOnce | truth_table_generator.py:19 | every combination of `n` truth values occurs in the enumeration, and only at its rank |
| TruthTableGenerator.ProductDistinct | truth_table_generator.py:19 | different indices give different combinations |
| TruthTableGenerator.ProductBit | truth_table_generator.py:19 | position `k` of combination `i` is bit `n-1-k` of `i` |
| TruthTableGenerator.BitOfXor | truth_table_generator.py:19 | each bit of the exclusive or of two indices is the exclusive or of their bits |
| TruthTableGenerator.BitsDetermine | truth_table_generator.py:19 | an index below `2^n` is determined by its lowest `n` bits |
| TruthTableGenerator.ProductFlip | truth_table_generator.py:19 | combinations `i` and `j` differ in exactly position `k` if and only if `j == i ^ 2^(n-1-k)` |
| TruthTableGenerator.Zip | truth_table_generator.py:20 | the keys of `dict(zip(keys, values))` are exactly the keys |
| TruthTableGenerator.ZipLookup | truth_table_generator.py:20 | with distinct keys, each key maps to the value at its own position |
| TruthTableGenerator.GenerateTruthTable | truth_table_generator.py:16-39 | the loop returns the table of one row per combination, or `None` at the first evaluation that raises |
| TruthTableGenerator.TruthTableAllOrNothing | truth_table_generator.py:19-39 | there is no table exactly when some evaluation raises; otherwise the table has `2^n` rows |
| TruthTableGenerator.TruthTableRowKeys | truth_table_generator.py:20-26 | the keys of each row are the conditions and `Decision`, and `Decision` holds the truth value of the expression on the row |
| TruthTableGenerator.TruthTableRowValue | truth_table_generator.py:19-20 | for distinct conditions, row `i` gives every condition `k` not named `Decision` the value at position `k` of combination `i`, even when another condition is named `Decision` |
| TruthTableGenerator.TruthTableRowBits | truth_table_generator.py:19-20 | for distinct conditions, row `i` gives every condition `k` not named `Decision` bit `n-1-k` of `i` |
| TruthTableGenerator.TruthTableRowAtRank | truth_table_generator.py:19-27 | for distinct conditions, the row at the rank of a combination carries that combination in every column not named `Decision` |
| TruthTableGenerator.TruthTableFlip | truth_table_generator.py:19-27 | for distinct conditions none of which is named `Decision`, rows `i` and `j` differ in exactly condition `k` if and only if `j == i ^ 2^(n-1-k)` |
| TruthTableGenerator.DecisionConditionOverwritten | truth_table_generator.py:20-26 | for the expression `not Decision` over the single condition `Decision`, row 1 stores `False`, the decision, where the condition is `True`; that the `Decision` key always holds the decision is `TruthTableRowKeys` |
| McdcAnalysis.ErrorOutcome | main.py:93-98 | a `ValueError` is reported as an input error and every other exception as an unexpected error |
| McdcAnalysis.Lacking | main.py:59-66 | the conditions reported as lacking pairs are exactly those whose `get(condition, [])` is empty |
| McdcAnalysis.AllConditionsHavePairs | main.py:58-66 | the flag is true exactly when every condition has a non-empty list of pairs, a missing key counting as empty; the conditions reported without pairs are the lacking ones, in order |
| McdcAnalysis.LackingAppend | main.py:59-66 | the lacking conditions of a list extended by one condition are the old ones, followed by the new condition if it lacks pairs |
| McdcAnalysis.RunMcdcAnalysis | main.py:24-98 | the steps of `run_mcdc_analysis` reach the outcome `Analysis` describes |
| McdcAnalysis.ParsedConditionsDistinct | main.py:26-31 | the conditions handed to the table generator are pairwise distinct |
| McdcAnalysis.ParseErrorIsInputError | main.py:26 | a parse failure is an input error, whatever the evaluator and the engine do |
| McdcAnalysis.NoTableStopsBeforeEngine | main.py:31-37 | without a table the analysis stops, and neither the pair finder nor the selector affects the outcome |
| McdcAnalysis.NoTruthTableIff | main.py:31-37 | the analysis stops for want of a table exactly when the expression parses and some evaluation raises |
| McdcAnalysis.GateIsNotNoTruthTable | main.py:44-91 | once a table exists, the analysis never reports a missing table |
| McdcAnalysis.NoPairsReportsLacking | main.py:48-55 | when no condition has a pair, the report names every condition, in order |
| McdcAnalysis.UncoverableIsLacking | main.py:51-53 | the "cannot be achieved" report appears exactly when some condition lacks pairs, and lists exactly those conditions in order |
| McdcAnalysis.SelectorOnlyWhenAllCovered | main.py:69-76 | the selector is consulted, with the number of rows, only when every condition has pairs; otherwise its answer plays no part |
| McdcAnalysis.SelectionReports | main.py:78-91 | success is reported exactly when a coverage map is returned; a partial set is shown only when it is non-empty |
| McdcAnalysis.MissingPairsNamesLacking | main.py:57-72 | stopping before selection names a non-empty list holding exactly the conditions without pairs |
| McdcAnalysis.StripStartSpec | main.py:119 | the left strip drops only white space and stops at a character that is not white space |
| McdcAnalysis.StripEndSpec | main.py:119 | the right strip drops only white space and stops at a character that is not white space |
| McdcAnalysis.StripSpec | main.py:119 | `strip` keeps a slice of the line that has only white space around it and no white space at either end |
| McdcAnalysis.StripEmptyIff | main.py:121 | a line strips to nothing exactly when it is all white space |
| McdcAnalysis.LowerSpec | main.py:119 | `lower` keeps the length and maps each character on its own |
| McdcAnalysis.ClassifyQuitIff | main.py:119-120 | a line ends the loop exactly when it strips to four characters that lower to `quit` |
| McdcAnalysis.ClassifyBlankIff | main.py:121-123 | a line is skipped exactly when it is all white space |
| McdcAnalysis.ClassifyQuitExample | main.py:119-120 | `"  QuIt\t"` ends the loop |
| McdcAnalysis.ClassifyBlankExample | main.py:121-123 | `" \t "` is skipped |
| McdcAnalysis.ClassifyQuitPrefixExample | main.py:119-126 | `"quit now"` is analysed, not treated as `quit` |
| McdcAnalysis.SessionStep | main.py:116-126 | a line that is not `quit` leads to its own event, followed by the session of the next line |
| McdcAnalysis.InputLoop | main.py:116-133 | the loop produces the events of the session: one per line up to the first `quit` or the end of input |
| McdcAnalysis.SessionEndsAtQuit | main.py:116-120 | lines after the first `quit` are never read, and each line before it gives at most one event |

## Left out

- **Printing.** The model has no printed output: no banners, no separators and no messages. `display_table` is also left out (display_utils.py is not part of this model). It is taken not to raise.
- **mcdc_logic.py is not part of this model.**
  - `find_mcdc_pairs` and `select_mcdc_test_set` are parameters. Their results are taken to have the shapes main.py:46-91 uses them with: a dict from condition names to lists of index pairs, and a pair of a set of selected indices and an optional coverage map.
  - An engine that returns `None` or another shape is not modelled.
- **The expression language.** `eval` is a parameter.
  - The `SyntaxError`, `NameError` and other-exception branches of `generate_truth_table` differ only in what they print. They are one `Raised` outcome.
  - `eval` is taken not to modify the `row` dict it receives as its locals (truth_table_generator.py:25), so no assignment expression (`:=`). The source appends that same dict (:27), so an expression like `(A := True) and B` would change the rows it stores. `TruthTableRowValue`, `TruthTableRowBits`, `TruthTableRowAtRank` and `TruthTableFlip` depend on this.
- **Unicode.**
  - Python's `\b`, `\w`, `str.strip` and `str.lower` follow Unicode. The model states them for ASCII text.
  - For `strip`, the white space is `str.isspace` on ASCII.
- `ExpressionParser.ParseConditions`: requires ASCII text, because the tokenizer is only modelled for ASCII.
- `McdcAnalysis.RunMcdcAnalysis`: requires ASCII text, for the same reason.
- `McdcAnalysis.InputLoop`: requires every line to be ASCII text, for the same reason.
- **End of input and Ctrl+C.**
  - The input is a finite list of lines, and its end is where `EOFError` would stop the loop.
  - `KeyboardInterrupt` is not modelled.
- **Selected indices.** These are a set of integers. `sorted(list(...))` only orders them for display.
- **Tracebacks.** The traceback printed for an unexpected error is left out.
