# SudokuMatrix board layer, in Dafny

This project models `SudokuMatrix`, the board class of a small Sudoku program
that hands its puzzle to an external solver (Peter Norvig's algorithm). The
class holds a 9×9 matrix of digits, with 0 meaning a blank cell. The model
covers five of its jobs:

- **Grid encoding** (`__init__`): the matrix is flattened row-major into the
  81-character string `grid` that the solver reads.
- **Rendering** (`__str__`): the board as text. Each cell is shown as its
  digit, or '.' for 0, followed by a space. A '|' comes after columns 2 and 5,
  and the rule line `------+------+------` comes after rows 2 and 5.
- **Row validation** (`is_int_convertible`, `validate_row`): a typed row is
  accepted when it has nine tokens, every token converts with `int`, and no
  positive value occurs twice. Zeros may repeat, and there is no upper bound.
- **Row entry** (`from_input`): each typed line is tokenised by removing
  spaces and splitting on ','. A line is typed again until it is accepted.
  After nine rows the board is built.
- **Writing back the solution** (`solve`): every cell label in the solver's
  result, such as "C7", is decoded into a row (its letter's index in
  "ABCDEFGHI") and a column (its digit's index in "123456789"). That cell is
  overwritten in place with `int` of the value.

Modules, in dependency order:

| file | module | contents |
|---|---|---|
| `wrappers.dfy` | `Wrappers` | `Option` |
| `int_text.dfy` | `IntText` | `str` and `int` on integers: digit strings, the try-parse behind `is_int_convertible`, the round trip `int(str(x)) == x` |
| `text.dfy` | `Text` | `replace`, `split`, `join` and the substring test `in` on strings |
| `labels.dfy` | `Labels` | `str.find` and the cell labels "A1".."I9" |
| `grid_codec.dfy` | `GridCodec` | the `grid` string, its decoding, and the effect of the solver's mapping on a grid |
| `rendering.dfy` | `Rendering` | the text of `__str__` as functions, with its line layout proved |
| `row_input.dfy` | `RowInput` | tokenising a line, `validate_row`, and the rows a sequence of typed lines yields |
| `row_examples.dfy` | `RowExamples` | concrete rows accepted or refused by `validate_row` |
| `sudoku_matrix.dfy` | `Board` | the class `SudokuMatrix`: an `array2<int>` updated in place, the rendering loops, the write-back loop of `solve`, and the row-entry loops of `from_input` |

The loops of the class are methods proved against the functions of the other
modules. `ToString` and `LineText` build exactly `Render` and `CellLine`.
`Solve` leaves the cells equal to `Applied(old cells, mapping)`. `ReadRows`
returns the first nine rows of `AcceptedRows(lines)`. The lemmas then state
what those functions mean: the 81-character row-major layout and its inverse,
the line layout of the board text, the decision `validate_row` makes, and the
independence of the write-back from the order in which the mapping is walked.

## Model

| member | source | states |
|---|---|---|
| IntText.TryParseInt | sudoku_matrix.py:55-59 | `int(s)` as a try-parse: it succeeds only on a non-empty string, and the value is at most 0 after a '-' sign and at least 0 otherwise |
| IntText.IsIntConvertible | sudoku_matrix.py:44-59 | `is_int_convertible`: true only on a non-empty string; its exact grammar is `IntLiteralsConvert` |
| IntText.IntLiteralsConvert | sudoku_matrix.py:44-59 | `is_int_convertible(s)` holds exactly when `s` is an optional '+' or '-' followed by one digit or more |
| IntText.ParseDigitsDefined | sudoku_matrix.py:55-59 | a digit string converts exactly when it is non-empty and all digits |
| IntText.IntToStringRoundTrip | sudoku_matrix.py:23 | the text `str` writes for any integer converts back with `int` to that same integer |
| IntText.NatToStringDigits | sudoku_matrix.py:23 | `str` of a natural number is all digits, and it starts with '0' only for 0 itself |
| IntText.IntToString | sudoku_matrix.py:23 | `str` of an integer: at least one character, and exactly one for 0..9; `IntToStringRoundTrip` and `NatToStringDigits` fix its text |
| IntText.ParseInt | sudoku_matrix.py:82 | `int(s)` on a token that converts: at most 0 after a '-' sign and at least 0 otherwise; `IntLiteralsConvert` gives the strings it accepts |
| IntText.ParseDigitChar | sudoku_matrix.py:140 | a one-digit value string converts to that digit's value |
| Text.ReplaceCharAt | sudoku_matrix.py:34 | `replace('0', '.')` turns every '0' into '.' and keeps every other character in its place |
| Text.ReplaceChar | sudoku_matrix.py:34 | `replace`: the text keeps its length; `ReplaceCharAt` says what each position becomes |
| Text.RemoveSpaces | sudoku_matrix.py:115 | `replace(' ', '')` leaves no space, and leaves a string without spaces as it was |
| Text.RemoveSpacesCons | sudoku_matrix.py:115 | from a string that starts with a character, removing spaces keeps that character unless it is a space, then removes the spaces of the rest |
| Text.RemoveSpacesConcat | sudoku_matrix.py:115 | removing spaces from two strings joined is joining the two results, so the kept characters stay in their original order |
| Text.RemoveSpacesKeepsOthers | sudoku_matrix.py:115 | removing spaces keeps every other character exactly as often as it occurred |
| Text.Split | sudoku_matrix.py:115 | `split(',')` yields at least one piece, and no piece contains the separator |
| Text.SplitWithout | sudoku_matrix.py:115 | a character absent from a string is absent from every piece of its split |
| Text.JoinSplit | sudoku_matrix.py:115 | joining the pieces of a split with the separator gives back the string |
| Text.SplitJoin | sudoku_matrix.py:115 | splitting joined pieces that do not hold the separator gives back the pieces |
| RowInput.Tokenize | sudoku_matrix.py:115 | the tokens of a line: at least one, and none holds a space or a comma |
| RowInput.TokenizeJoin | sudoku_matrix.py:115 | the tokens of a line, joined with ',', are the line without its spaces |
| RowInput.JoinTokenize | sudoku_matrix.py:115 | a row typed as its tokens separated by commas tokenises back to those tokens |
| RowInput.ParseRow | sudoku_matrix.py:82 | `[int(i) for i in row_list]`: one value per token, each the value its token converts to |
| RowInput.Positives | sudoku_matrix.py:83 | the filter `[i for i in row_list_int if i > 0]` keeps at most as many values as the row has; `PositivesMembers` says which |
| RowInput.ElementSet | sudoku_matrix.py:84 | `set(...)` holds every value of the list and has no more elements than the list; `PositivesSetSize` says when it has as many |
| RowInput.PositivesMembers | sudoku_matrix.py:83 | the filtered list holds exactly the positive values of the row |
| RowInput.PositivesSetSize | sudoku_matrix.py:83-84 | the set of the positive values is as large as their list exactly when no positive value repeats |
| RowInput.ValidateRow | sudoku_matrix.py:61-94 | `validate_row`: a row it accepts has 9 tokens, all convertible; the full decision is `ValidateRowMeaning` |
| RowInput.ValidateRowMeaning | sudoku_matrix.py:61-94 | `validate_row` is true exactly when there are 9 tokens, all convertible, with no positive value repeated; false on any other length, on any non-convertible token, and on a repeated positive value |
| RowInput.Accepts | sudoku_matrix.py:115-116 | a line the loop accepts has nine tokens, all convertible, with no positive value twice |
| RowInput.ParseLine | sudoku_matrix.py:121 | the row stored for an accepted line: nine values, no positive value twice, each the value its token converts to |
| RowInput.AcceptedRows | sudoku_matrix.py:111-122 | the rows `from_input` collects from a sequence of typed lines: no more rows than lines |
| RowInput.AcceptedRowsValid | sudoku_matrix.py:116-122 | every row collected from the typed lines has nine values with no positive value twice |
| RowInput.AcceptedRowsSnoc | sudoku_matrix.py:114-122 | the defining equation of `AcceptedRows` unfolded at a prefix of the input: one more line adds its parsed row when `validate_row` accepts it, and nothing otherwise |
| RowInput.AcceptedRowsConcat | sudoku_matrix.py:111-122 | the rows collected from two stretches of input are the rows of the first followed by the rows of the second |
| RowInput.AcceptedRowsPrefix | sudoku_matrix.py:111-122 | the rows collected from a prefix of the input are a prefix of the rows of the whole input |
| RowInput.RejectedLineIgnored | sudoku_matrix.py:116-119 | a rejected line leaves the collected rows as if it had never been typed |
| RowInput.RejectedMeaning | sudoku_matrix.py:116-119 | a stretch of lines counts as refused exactly when the validator refuses every line in it |
| RowInput.AcceptedRowsRejected | sudoku_matrix.py:116-119 | a stretch of refused lines adds no row |
| RowInput.AcceptedRowsAllRejected | sudoku_matrix.py:116-119 | when every remaining line is refused, the input yields no further row |
| RowInput.AcceptedRowsFound | sudoku_matrix.py:116-122 | refused lines followed by an accepted one add exactly the accepted line's row |
| RowExamples.AcceptsPromptExample | sudoku_matrix.py:93 | the example row 4,2,0,0,8,0,0,0,0 is accepted and read as those nine values, repeated zeros included |
| RowExamples.AcceptsOneToNine | sudoku_matrix.py:79-85 | the row 1..9 is accepted and read as 1..9 |
| RowExamples.AcceptsAllBlanks | sudoku_matrix.py:82-85 | a row of nine zeros is accepted |
| RowExamples.AcceptsValueAboveNine | sudoku_matrix.py:82-85 | a row holding "10" and eight other distinct positive values is accepted: there is no range check |
| RowExamples.RejectsRepeatedDigit | sudoku_matrix.py:84-88 | a row with the value 1 twice is refused |
| RowExamples.RejectsShortRow | sudoku_matrix.py:75-77 | a row of three tokens is refused |
| RowExamples.RejectsNonNumericToken | sudoku_matrix.py:79-81 | a row with the token "a" is refused, although its other eight tokens are fine |
| Labels.Find | sudoku_matrix.py:138-139 | `find` gives -1 exactly when the character is absent, and otherwise the index of its first occurrence |
| Labels.LabelRow | sudoku_matrix.py:138 | the row `solve` writes for a label: -1 exactly when its letter is not in "ABCDEFGHI", and otherwise the index of that letter |
| Labels.LabelColumn | sudoku_matrix.py:139 | the column `solve` writes for a label: -1 exactly when its digit is not in "123456789", and otherwise the index of that digit |
| Labels.DecodeCellLabel | sudoku_matrix.py:135-139 | the label of cell (r, c) decodes to row r and column c |
| Labels.LabelDecodesToCell | sudoku_matrix.py:135-139 | every valid label decodes to a cell on the board whose label is that label |
| Labels.CornerLabels | sudoku_matrix.py:135-139 | "A1" decodes to (0, 0) and "I9" to (8, 8) |
| GridCodec.Encode | sudoku_matrix.py:23 | the `grid` string of a 9×9 grid has at least 81 characters |
| GridCodec.EncodeRow | sudoku_matrix.py:23 | the text of one row: at least one character per value |
| GridCodec.EncodeRowDigits | sudoku_matrix.py:23 | the text of a digit row is one character per value, the digit of each value in its place |
| GridCodec.EncodeDigitGrid | sudoku_matrix.py:23 | the `grid` string of a digit grid has 81 characters, and the one at 9·r + c is the digit of cell (r, c) |
| GridCodec.EncodeLength | sudoku_matrix.py:23 | the `grid` string has at least 81 characters, and exactly 81 when every cell is a digit 0..9 |
| GridCodec.DecodeEncode | sudoku_matrix.py:23 | the `grid` string of a digit grid is 81 digits, and reading it back row-major gives the grid |
| GridCodec.EncodeDecode | sudoku_matrix.py:23 | every 81-digit string is the `grid` string of the grid it reads as |
| GridCodec.Applied | sudoku_matrix.py:137-140 | the grid after the decode loop is again 9×9, and every cell whose label the mapping lacks keeps its value |
| GridCodec.AppliedComplete | sudoku_matrix.py:137-140 | a mapping that names all 81 cells sets every cell to `int` of its label's value, whatever the grid held before |
| GridCodec.AppliedInEitherOrder | sudoku_matrix.py:137-140 | writing two mappings with disjoint labels, in either order, gives the same grid as writing their union |
| GridCodec.CluesRetained | sudoku_matrix.py:134-140 | when the solver keeps the clues of the `grid` string, every non-blank cell keeps its value |
| GridCodec.SolvedGridIsFull | sudoku_matrix.py:137-140 | a complete solution of digits 1..9 leaves a digit grid with no blank |
| Text.Contains | sudoku_matrix.py:35 | the substring test `s in t`: a contained string is no longer than `t`, and every prefix of `t` is contained |
| Rendering.SeparatorTest | sudoku_matrix.py:35 | `str(j) in '25'` holds for a natural number j exactly when j is 2, 5 or 25 |
| Rendering.SeparatorPositions | sudoku_matrix.py:35-38 | the test `str(j) in '25'` holds on the board's positions 0..8 exactly for 2 and 5 |
| Rendering.CellText | sudoku_matrix.py:34 | the text of one cell, for any value: one character longer than `str` of the value, ending in a space, with no '0' and no newline |
| Rendering.CellTextDigit | sudoku_matrix.py:34 | a digit cell is shown as its digit, or '.' for 0, followed by one space |
| Rendering.CellLineLayout | sudoku_matrix.py:33-36 | a cell line of digits has 20 characters: cell c at its column offset followed by a space, and '|' at positions 6 and 13 |
| Rendering.CellLine | sudoku_matrix.py:33-36 | the text the inner loop builds for a row holds no newline, whatever the values in the row |
| Rendering.Render | sudoku_matrix.py:28-41 | the board text is non-empty and ends with a newline |
| Rendering.RenderLines | sudoku_matrix.py:28-41 | the board text splits at newlines into 9 cell lines, the rule line after the third and the sixth, and an empty piece after the final newline |
| Board.SudokuMatrix.constructor | sudoku_matrix.py:13-23 | the array holds the given rows, and `grid` is their row-major encoding |
| Board.SudokuMatrix.ToString | sudoku_matrix.py:28-41 | the text built row by row is the board text `Render` of the cells |
| Board.SudokuMatrix.LineText | sudoku_matrix.py:33-36 | the inner loop builds the cell line of row i |
| Board.SudokuMatrix.Solve | sudoku_matrix.py:128-140 | on a solver result, every labelled cell becomes `int` of its value and every other cell keeps its value, whatever order the mapping is walked in; on a solver failure nothing changes |
| Board.SudokuMatrix.ReadRows | sudoku_matrix.py:111-124 | nine rows are returned exactly when the input holds nine accepted lines; they are the first nine accepted rows, a 9×9 grid with no positive value twice in a row |
| Board.SudokuMatrix.ReadRow | sudoku_matrix.py:113-122 | lines are consumed until the first accepted one: every line before it is refused, the row returned is that line's parse, and it is appended to the rows read so far; when the input ends first, every remaining line was refused and no row is added |
| Board.SudokuMatrix.FromInput | sudoku_matrix.py:96-126 | a fresh board is built exactly when nine rows are accepted; its cells and `grid` come from the first nine accepted rows |

## Left out

- The solver itself (`imported_solver.solve`) is not part of this model. Its result is a parameter of `Board.SudokuMatrix.Solve`: a mapping from labels to value strings, or None for a failed solve.
- Board.SudokuMatrix.Solve: a failed solve hands back a value without `items` (False), and the source then raises. The model returns false and leaves the board as it was.
- Board.SudokuMatrix.Solve: requires every label to be valid and every value to convert with `int`. On an invalid label `find` returns -1, which numpy reads as the last row or column; on a bad value `int` raises. Neither is modelled.
- Board.SudokuMatrix.constructor: requires nine rows of nine values. In the source, fewer than nine rows make `data[j]` raise IndexError at sudoku_matrix.py:23, and ragged rows make `np.array` raise ValueError at sudoku_matrix.py:22 (NumPy 1.24 and later). More than nine rows, or rows of another common width, are stored and rendered whole, while `grid` encodes every value of the first nine rows only. None of these shapes is modelled.
- Console I/O is left out: the prompts and messages of `from_input` and `validate_row`, and the echo of each accepted row. The typed lines are a sequence parameter, and the end of that sequence gives None where `input()` would wait or raise.
- Board.SudokuMatrix.ReadRows: does not return how many lines it consumed, since the source has no such result.
- IntText.IsIntConvertible: the model accepts exactly an optional sign followed by ASCII digits. It does not model these behaviours of Python's `int()`:
  - whitespace other than the plain space: tokenising removes only U+0020, but `int()` also strips tabs, no-break spaces and other whitespace, so a token such as `"\t5"` converts in Python and is refused here;
  - underscores between digits, and non-ASCII digits, which `int()` accepts and the model refuses;
  - the limit on the length of a decimal string (4300 digits by default since Python 3.11), beyond which `int()` raises and `is_int_convertible` returns False, while the model converts.
- numpy is left out: `np.array` and `.shape` become an `array2<int>` of size 9×9, and numpy integer widths are unbounded integers.
- `grid` is not refreshed by `solve`, as in the source.
- `__repr__`, which only calls `__str__`, and the `__main__` demo block are left out.
- Rendering.CellLine: follows the code, which writes no space after '|' and leaves a trailing space before each newline. A blank row is `. . . |. . . |. . . `; a layout with a space after each bar (`. . . | . . . | . . .`) would differ.
