/**
 * `SudokuMatrix`: a 9x9 board held in a two-dimensional array, its encoded
 * `grid` string, rendering, writing a solver result back, and building a
 * board from typed rows.
 */
module Board {
  import opened Wrappers
  import opened IntText
  import opened Labels
  import opened GridCodec
  import opened Rendering
  import opened RowInput

  class SudokuMatrix {
    /** `inner_matrix`: the cells. */
    var inner: array2<int>
    /** `grid`: the string handed to the solver, fixed at construction. */
    var grid: string

    ghost predicate Valid()
      reads this
    {
      inner.Length0 == 9 && inner.Length1 == 9
    }

    /** The cells as nine rows of nine values. */
    ghost function Cells(): (g: seq<seq<int>>)
      reads this, inner
      requires Valid()
      ensures IsGrid(g)
      ensures forall r, c :: 0 <= r < 9 && 0 <= c < 9 ==> g[r][c] == inner[r, c]
    {
      var a := inner;
      seq(9, r reads a requires 0 <= r < 9 && a.Length0 == 9 && a.Length1 == 9 =>
        seq(9, c reads a requires 0 <= c < 9 => a[r, c]))
    }

    /** `__init__`: copy the rows into the array and encode them. */
    constructor (data: seq<seq<int>>)
      requires IsGrid(data)
      ensures Valid() && fresh(inner)
      ensures Cells() == data
      ensures grid == Encode(data)
    {
      inner := new int[9, 9]((r, c) requires 0 <= r < 9 && 0 <= c < 9 => data[r][c]);
      grid := Encode(data);
      new;
      SameCells(Cells(), data);
    }

    /** `__str__`: the board text, row by row; after rows 2 and 5 comes the rule line. */
    method ToString() returns (s: string)
      requires Valid()
      ensures s == Render(Cells())
    {
      ghost var g := Cells();
      var height := inner.Length0;
      s := "";
      for i := 0 to height
        invariant s == BoardPrefix(g, i)
      {
        var line := LineText(i);
        s := s + line + "\n";
        SeparatorPositions(i);
        if SeparatorTest(i) {
          s := s + Rule + "\n";
        }
        BoardPrefixStep(g, i);
      }
    }

    /** The inner loop of `__str__`: row i's cells, each with a trailing space, and a bar after columns 2 and 5. */
    method LineText(i: nat) returns (line: string)
      requires Valid() && i < 9
      ensures line == CellLine(Cells()[i])
    {
      ghost var cells := CellTexts(Cells()[i]);
      var width := inner.Length1;
      line := "";
      for j := 0 to width
        invariant line == LinePrefix(cells, j)
      {
        LinePrefixStep(cells, j);
        line := line + CellText(inner[i, j]);
        SeparatorPositions(j);
        if SeparatorTest(j) {
          line := line + "|";
        }
      }
    }

    /**
     * `solve`: `solved` is what the external solver returned for `grid`, None
     * when it failed. On success every labelled cell is overwritten with `int`
     * of its value, in whatever order the mapping is walked, and every other
     * cell keeps its value.
     */
    method Solve(solved: Option<map<string, string>>) returns (ok: bool)
      requires Valid()
      requires solved.Some? ==> IsSolverOutput(solved.value)
      modifies inner
      ensures ok <==> solved.Some?
      ensures Cells() == if ok then Applied(old(Cells()), solved.value) else old(Cells())
    {
      if solved.None? {
        return false;
      }
      var m := solved.value;
      ghost var before := Cells();
      var rows, cols := RowLetters, ColumnDigits;
      var remaining := m.Keys;
      while remaining != {}
        invariant remaining <= m.Keys
        invariant forall r, c :: 0 <= r < 9 && 0 <= c < 9 ==>
          inner[r, c] == (if CellLabel(r, c) in m && CellLabel(r, c) !in remaining
                          then ParseInt(m[CellLabel(r, c)]) else before[r][c])
        decreases remaining
      {
        var square :| square in remaining;
        LabelDecodesToCell(square);
        var row := Find(rows, square[0]);
        var col := Find(cols, square[1]);
        forall r, c | 0 <= r < 9 && 0 <= c < 9 && CellLabel(r, c) == square
          ensures r == row && c == col
        {
          DecodeCellLabel(r, c);
        }
        ghost var prev := Cells();
        inner[row, col] := ParseInt(m[square]);
        remaining := remaining - {square};
        forall r, c | 0 <= r < 9 && 0 <= c < 9
          ensures inner[r, c] == (if CellLabel(r, c) in m && CellLabel(r, c) !in remaining
                                  then ParseInt(m[CellLabel(r, c)]) else before[r][c])
        {
          if r != row || c != col {
            assert inner[r, c] == prev[r][c];
            assert CellLabel(r, c) != square;
          }
        }
      }
      SameCells(Cells(), Applied(before, m));
      ok := true;
    }

    /**
     * The row loop of `from_input`, reading from `lines` instead of the
     * console: each of the nine rows is read again until the validator
     * accepts it. Running out of lines (end of input) gives None.
     */
    static method ReadRows(lines: seq<string>) returns (rows: Option<seq<seq<int>>>)
      ensures rows.Some? <==> |AcceptedRows(lines)| >= 9
      ensures rows.Some? ==> rows.value == AcceptedRows(lines)[..9] && IsGrid(rows.value)
      ensures rows.Some? ==> forall k :: 0 <= k < 9 ==> DistinctPositives(rows.value[k])
    {
      var sudokuList: seq<seq<int>> := [];
      var read := 0;
      for loopingVar := 1 to 10
        invariant read <= |lines|
        invariant |sudokuList| == loopingVar - 1
        invariant sudokuList == AcceptedRows(lines[..read])
      {
        var row;
        row, read := ReadRow(lines, read);
        if row.None? {
          return None;
        }
        sudokuList := sudokuList + [row.value];
      }
      AcceptedRowsPrefix(lines, read);
      AcceptedRowsValid(lines);
      rows := Some(sudokuList);
    }

    /**
     * One row of `from_input`: lines are read from position `start` until one
     * is accepted; None when the input ends first. `read` is the position
     * after the last line consumed.
     */
    static method ReadRow(lines: seq<string>, start: nat) returns (row: Option<seq<int>>, read: nat)
      requires start <= |lines|
      ensures start <= read <= |lines|
      ensures row.None? ==> read == |lines| && AcceptedRows(lines) == AcceptedRows(lines[..start])
      ensures row.Some? ==> AcceptedRows(lines[..read]) == AcceptedRows(lines[..start]) + [row.value]
      ensures row.Some? ==> start < read && Accepts(lines[read - 1]) && row.value == ParseLine(lines[read - 1])
      ensures row.Some? ==> Rejected(lines, start, read - 1)
      ensures row.None? ==> Rejected(lines, start, read)
    {
      read := start;
      if read == |lines| {
        AcceptedRowsAllRejected(lines, start);
        return None, read;
      }
      var rowList := Tokenize(lines[read]);
      read := read + 1;
      while !ValidateRow(rowList)
        invariant start < read <= |lines|
        invariant rowList == Tokenize(lines[read - 1])
        invariant Rejected(lines, start, read - 1)
        decreases |lines| - read
      {
        assert Rejected(lines, start, read);
        if read == |lines| {
          AcceptedRowsAllRejected(lines, start);
          return None, read;
        }
        rowList := Tokenize(lines[read]);
        read := read + 1;
      }
      AcceptedRowsFound(lines, start, read);
      row := Some(ParseRow(rowList));
    }

    /** `from_input`: the board built from the first nine accepted rows, None when the input ends first. */
    static method FromInput(lines: seq<string>) returns (board: Option<SudokuMatrix>)
      ensures board.Some? <==> |AcceptedRows(lines)| >= 9
      ensures board.Some? ==> fresh(board.value) && fresh(board.value.inner) && board.value.Valid()
      ensures board.Some? ==> board.value.Cells() == AcceptedRows(lines)[..9]
      ensures board.Some? ==> board.value.grid == Encode(AcceptedRows(lines)[..9])
    {
      var rows := ReadRows(lines);
      if rows.None? {
        return None;
      }
      var m := new SudokuMatrix(rows.value);
      board := Some(m);
    }
  }
}
