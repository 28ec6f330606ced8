/**
 * The text `SudokuMatrix.__str__` builds: each cell as its digit or '.' for
 * 0, followed by a space; '|' after columns 2 and 5; a rule line after rows
 * 2 and 5.
 */
module Rendering {
  import opened IntText
  import opened Text
  import opened GridCodec

  const Rule: string := "------+------+------"

  /** `str(j) in '25'`: the substring test `__str__` uses to decide whether a bar follows column j, or a rule follows row j. */
  predicate SeparatorTest(j: nat)
    ensures SeparatorTest(j) <==> j == 2 || j == 5 || j == 25
  {
    ContainsIn25(IntToString(j));
    NumeralsIn25(j);
    Contains("25", IntToString(j))
  }

  /** The non-empty substrings of "25". */
  lemma ContainsIn25(s: string)
    requires |s| > 0
    ensures Contains("25", s) <==> s == "2" || s == "5" || s == "25"
  {
    assert "25"[1..] == "5" && "5"[1..] == "";
    assert !Contains("", s);
    assert Contains("5", s) <==> s <= "5";
    assert Contains("25", s) <==> s <= "25" || s <= "5";
  }

  /** Only 2, 5 and 25 are written as "2", "5" and "25". */
  lemma NumeralsIn25(j: nat)
    ensures IntToString(j) == "2" <==> j == 2
    ensures IntToString(j) == "5" <==> j == 5
    ensures IntToString(j) == "25" <==> j == 25
  {
    IntToStringRoundTrip(j);
    assert IntToString(25) == "25" by {
      assert NatToString(2) == "2";
    }
    assert TryParseInt("25").Some? && TryParseInt("25").value == 25 by {
      assert "25"[..1] == "2";
    }
  }

  /** The positions a separator follows on the board. */
  predicate SeparatorAfter(j: nat) {
    j == 2 || j == 5
  }

  /** On a 9-wide board the substring test picks out exactly positions 2 and 5. */
  lemma SeparatorPositions(j: nat)
    requires j < 9
    ensures SeparatorTest(j) <==> SeparatorAfter(j)
  {
  }

  /** `str(x).replace('0', '.') + ' '`. */
  function CellText(x: int): (t: string)
    ensures |t| == |IntToString(x)| + 1 && t[|t| - 1] == ' '
    ensures '0' !in t && '\n' !in t
  {
    IntToStringChars(x);
    ReplaceCharAt(IntToString(x), '0', '.');
    ReplaceChar(IntToString(x), '0', '.') + " "
  }

  /** How a digit cell is shown. */
  function CellChar(d: int): char
    requires 0 <= d <= 9
  {
    if d == 0 then '.' else DigitChar(d)
  }

  lemma CellTextDigit(x: int)
    requires 0 <= x <= 9
    ensures CellText(x) == [CellChar(x), ' ']
  {
    assert IntToString(x) == [DigitChar(x)];
  }

  /** The text of each cell of a row, in column order. */
  function CellTexts(row: seq<int>): (cells: seq<string>)
    ensures |cells| == |row|
    ensures forall c :: 0 <= c < |cells| ==> '\n' !in cells[c]
  {
    seq(|row|, c requires 0 <= c < |row| => CellText(row[c]))
  }

  /** The first j cells of a board line, given the text of each cell. */
  function LinePrefix(cells: seq<string>, j: nat): string
    requires j <= |cells|
  {
    if j == 0 then ""
    else
      var text := LinePrefix(cells, j - 1) + cells[j - 1];
      if SeparatorAfter(j - 1) then text + "|" else text
  }

  /** A board line without its newline. */
  function CellLine(row: seq<int>): (line: string)
    requires |row| == 9
    ensures '\n' !in line
  {
    LinePrefixOneLine(CellTexts(row), 9);
    LinePrefix(CellTexts(row), 9)
  }

  /** The text appended for row i, given its line: the line, a newline, and after rows 2 and 5 the rule line. */
  function RowText(line: string, i: nat): string {
    var text := line + "\n";
    if SeparatorAfter(i) then text + Rule + "\n" else text
  }

  /** The text of the first i rows. */
  function BoardPrefix(g: seq<seq<int>>, i: nat): string
    requires IsGrid(g) && i <= 9
  {
    if i == 0 then "" else BoardPrefix(g, i - 1) + RowText(CellLine(g[i - 1]), i - 1)
  }

  /** One pass of the inner loop of `__str__`: the cell text, then a bar after columns 2 and 5. */
  lemma LinePrefixStep(cells: seq<string>, j: nat)
    requires j < |cells|
    ensures LinePrefix(cells, j + 1) ==
      if SeparatorAfter(j) then LinePrefix(cells, j) + cells[j] + "|"
      else LinePrefix(cells, j) + cells[j]
  {
  }

  /** One pass of the outer loop of `__str__`: the line, its newline, then the rule after rows 2 and 5. */
  lemma BoardPrefixStep(g: seq<seq<int>>, i: nat)
    requires IsGrid(g) && i < 9
    ensures BoardPrefix(g, i + 1) ==
      if SeparatorAfter(i) then BoardPrefix(g, i) + CellLine(g[i]) + "\n" + Rule + "\n"
      else BoardPrefix(g, i) + CellLine(g[i]) + "\n"
  {
    var p, line := BoardPrefix(g, i), CellLine(g[i]);
    if SeparatorAfter(i) {
      assert p + (line + "\n" + Rule + "\n") == p + line + "\n" + Rule + "\n";
    } else {
      assert p + (line + "\n") == p + line + "\n";
    }
  }

  /** The string `__str__` returns for the grid. */
  function Render(g: seq<seq<int>>): (s: string)
    requires IsGrid(g)
    ensures |s| > 0 && s[|s| - 1] == '\n'
  {
    BoardPrefix(g, 9)
  }

  /** Where column c starts within a board line: two characters per cell and one per bar before it. */
  function ColumnOffset(c: nat): nat {
    2 * c + (if c >= 3 then 1 else 0) + (if c >= 6 then 1 else 0)
  }

  /** Cell texts of two characters each, the second a space: the texts of digit cells. */
  predicate TwoCharCells(cells: seq<string>) {
    |cells| == 9 && forall c :: 0 <= c < 9 ==> |cells[c]| == 2 && cells[c][1] == ' '
  }

  lemma {:induction false} LinePrefixLength(cells: seq<string>, j: nat)
    requires TwoCharCells(cells) && j <= 9
    ensures |LinePrefix(cells, j)| == ColumnOffset(j)
  {
    if j > 0 {
      LinePrefixLength(cells, j - 1);
      LinePrefixStep(cells, j - 1);
    }
  }

  /** Cell c's text stands at ColumnOffset(c) of the line. */
  lemma {:induction false} LinePrefixCell(cells: seq<string>, j: nat, c: nat)
    requires TwoCharCells(cells) && c < j <= 9
    ensures ColumnOffset(c) + 1 < |LinePrefix(cells, j)|
    ensures LinePrefix(cells, j)[ColumnOffset(c)] == cells[c][0]
    ensures LinePrefix(cells, j)[ColumnOffset(c) + 1] == ' '
  {
    LinePrefixLength(cells, j - 1);
    LinePrefixStep(cells, j - 1);
    if c < j - 1 {
      LinePrefixCell(cells, j - 1, c);
    }
  }

  /** The bar after column b (2 or 5) stands right after that cell's space. */
  lemma {:induction false} LinePrefixBar(cells: seq<string>, j: nat, b: nat)
    requires TwoCharCells(cells) && SeparatorAfter(b) && b < j <= 9
    ensures ColumnOffset(b) + 2 < |LinePrefix(cells, j)|
    ensures LinePrefix(cells, j)[ColumnOffset(b) + 2] == '|'
  {
    LinePrefixLength(cells, j - 1);
    LinePrefixStep(cells, j - 1);
    if b < j - 1 {
      LinePrefixBar(cells, j - 1, b);
    }
  }

  /**
   * A line of a digit grid has 20 characters: cell c's character at
   * ColumnOffset(c) followed by a space, and '|' at positions 6 and 13.
   */
  lemma CellLineLayout(row: seq<int>)
    requires |row| == 9 && IsDigitRow(row)
    ensures |CellLine(row)| == 20
    ensures forall c :: 0 <= c < 9 ==>
      CellLine(row)[ColumnOffset(c)] == CellChar(row[c]) && CellLine(row)[ColumnOffset(c) + 1] == ' '
    ensures CellLine(row)[6] == '|' && CellLine(row)[13] == '|'
  {
    var cells := CellTexts(row);
    forall c | 0 <= c < 9 ensures cells[c] == [CellChar(row[c]), ' '] {
      CellTextDigit(row[c]);
    }
    LinePrefixLength(cells, 9);
    forall c | 0 <= c < 9
      ensures CellLine(row)[ColumnOffset(c)] == CellChar(row[c]) && CellLine(row)[ColumnOffset(c) + 1] == ' '
    {
      LinePrefixCell(cells, 9, c);
    }
    LinePrefixBar(cells, 9, 2);
    LinePrefixBar(cells, 9, 5);
  }

  lemma {:induction false} LinePrefixOneLine(cells: seq<string>, j: nat)
    requires j <= |cells|
    requires forall c :: 0 <= c < |cells| ==> '\n' !in cells[c]
    ensures '\n' !in LinePrefix(cells, j)
  {
    if j > 0 {
      LinePrefixOneLine(cells, j - 1);
      LinePrefixStep(cells, j - 1);
    }
  }

  /** The lines of row i: its cell line, then the rule after rows 2 and 5. */
  function RowLines(line: string, i: nat): seq<string> {
    if SeparatorAfter(i) then [line, Rule] else [line]
  }

  /** The lines of the first i rows. */
  function Lines(g: seq<seq<int>>, i: nat): seq<string>
    requires IsGrid(g) && i <= 9
  {
    if i == 0 then [] else Lines(g, i - 1) + RowLines(CellLine(g[i - 1]), i - 1)
  }

  /** Index of row r's line among the lines: one extra line for each rule above it. */
  function LineIndex(r: nat): nat {
    r + (if r >= 3 then 1 else 0) + (if r >= 6 then 1 else 0)
  }

  lemma {:induction false} LinesLayout(g: seq<seq<int>>, i: nat)
    requires IsGrid(g) && i <= 9
    ensures |Lines(g, i)| == LineIndex(i)
    ensures forall r :: 0 <= r < i ==> Lines(g, i)[LineIndex(r)] == CellLine(g[r])
  {
    if i > 0 {
      LinesLayout(g, i - 1);
      var prev, lines := Lines(g, i - 1), Lines(g, i);
      assert lines == prev + RowLines(CellLine(g[i - 1]), i - 1);
      assert lines[LineIndex(i - 1)] == CellLine(g[i - 1]);
      forall r | 0 <= r < i - 1 ensures lines[LineIndex(r)] == CellLine(g[r]) {
        assert lines[LineIndex(r)] == prev[LineIndex(r)];
      }
    }
  }

  lemma {:induction false} RuleLines(g: seq<seq<int>>, i: nat)
    requires IsGrid(g) && i <= 9
    ensures |Lines(g, i)| == LineIndex(i)
    ensures i >= 3 ==> Lines(g, i)[3] == Rule
    ensures i >= 6 ==> Lines(g, i)[7] == Rule
  {
    LinesLayout(g, i);
    if i > 0 {
      RuleLines(g, i - 1);
      var prev, lines := Lines(g, i - 1), Lines(g, i);
      assert lines == prev + RowLines(CellLine(g[i - 1]), i - 1);
      if i - 1 >= 3 {
        assert lines[3] == prev[3];
      }
      if i - 1 >= 6 {
        assert lines[7] == prev[7];
      }
    }
  }

  /** Appending a line and a newline to newline-joined text. */
  lemma JoinLine(before: seq<string>, line: string)
    ensures Join(before + [""], '\n') + (line + "\n") == Join(before + [line] + [""], '\n')
  {
    JoinExtendLast(before, "", line, '\n');
    assert "" + line == line;
    JoinSnoc(before + [line], "", '\n');
  }

  /** Appending two lines, each with its newline, to newline-joined text. */
  lemma JoinTwoLines(before: seq<string>, first: string, second: string)
    ensures Join(before + [""], '\n') + (first + "\n" + second + "\n") == Join(before + [first, second] + [""], '\n')
  {
    var text := Join(before + [""], '\n');
    JoinLine(before, first);
    JoinLine(before + [first], second);
    assert before + [first] + [second] == before + [first, second];
    assert text + (first + "\n" + second + "\n") == text + (first + "\n") + (second + "\n");
  }

  /** Appending the text of one row to newline-joined text appends that row's lines. */
  lemma JoinRowText(before: seq<string>, line: string, i: nat)
    ensures Join(before + [""], '\n') + RowText(line, i) == Join(before + RowLines(line, i) + [""], '\n')
  {
    if SeparatorAfter(i) {
      JoinTwoLines(before, line, Rule);
    } else {
      JoinLine(before, line);
    }
  }

  lemma {:induction false} BoardPrefixJoin(g: seq<seq<int>>, i: nat)
    requires IsGrid(g) && i <= 9
    ensures BoardPrefix(g, i) == Join(Lines(g, i) + [""], '\n')
  {
    if i > 0 {
      BoardPrefixJoin(g, i - 1);
      JoinRowText(Lines(g, i - 1), CellLine(g[i - 1]), i - 1);
    }
  }

  /**
   * Split at newlines, the board is 9 cell lines with the rule line after the
   * third and the sixth, and a final newline (so the last piece is empty).
   */
  lemma RenderLines(g: seq<seq<int>>)
    requires IsGrid(g)
    ensures var lines := Split(Render(g), '\n');
      && |lines| == 12 && lines[11] == ""
      && lines[3] == Rule && lines[7] == Rule
      && forall r :: 0 <= r < 9 ==> lines[LineIndex(r)] == CellLine(g[r])
  {
    LinesLayout(g, 9);
    RuleLines(g, 9);
    BoardPrefixJoin(g, 9);
    LinesOneLine(g, 9);
    var parts := Lines(g, 9) + [""];
    forall k | 0 <= k < |parts| ensures '\n' !in parts[k] {
      if k < |parts| - 1 {
        assert parts[k] == Lines(g, 9)[k];
      }
    }
    SplitJoin(parts, '\n');
  }

  lemma {:induction false} LinesOneLine(g: seq<seq<int>>, i: nat)
    requires IsGrid(g) && i <= 9
    ensures forall k :: 0 <= k < |Lines(g, i)| ==> '\n' !in Lines(g, i)[k]
  {
    if i > 0 {
      LinesOneLine(g, i - 1);
      var prev, more := Lines(g, i - 1), RowLines(CellLine(g[i - 1]), i - 1);
      assert '\n' !in Rule;
      assert forall k :: 0 <= k < |more| ==> '\n' !in more[k];
      forall k | 0 <= k < |Lines(g, i)| ensures '\n' !in Lines(g, i)[k] {
        if k < |prev| {
          assert Lines(g, i)[k] == prev[k];
        } else {
          assert Lines(g, i)[k] == more[k - |prev|];
        }
      }
    }
  }
}
