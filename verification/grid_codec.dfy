/**
 * The grid as the solver sees it: the 81-character row-major string built by
 * the constructor, and the effect of writing the solver's label-to-value
 * mapping back onto the grid.
 */
module GridCodec {
  import opened IntText
  import opened Labels

  /** Nine rows of nine integers. */
  predicate IsGrid(g: seq<seq<int>>) {
    |g| == 9 && forall r :: 0 <= r < 9 ==> |g[r]| == 9
  }

  /** A grid whose every cell is a digit 0..9, 0 being a blank. */
  predicate IsDigitGrid(g: seq<seq<int>>) {
    IsGrid(g) && forall r, c :: 0 <= r < 9 && 0 <= c < 9 ==> 0 <= g[r][c] <= 9
  }

  predicate IsDigitRow(row: seq<int>) {
    forall c :: 0 <= c < |row| ==> 0 <= row[c] <= 9
  }

  /** `''.join(str(i) for i in row)`. */
  /** The text of one row: `str` of each cell, joined. */
  function EncodeRow(row: seq<int>): (s: string)
    ensures |s| >= |row|
  {
    if row == [] then "" else IntToString(row[0]) + EncodeRow(row[1..])
  }

  function EncodeRows(rows: seq<seq<int>>): string {
    if rows == [] then "" else EncodeRow(rows[0]) + EncodeRows(rows[1..])
  }

  /** The `grid` string of `SudokuMatrix.__init__`: the text of every cell, row by row. */
  function Encode(g: seq<seq<int>>): (s: string)
    requires IsGrid(g)
    ensures |s| >= 81
  {
    EncodeRowsLength(g);
    EncodeRows(g)
  }

  lemma {:induction false} EncodeRowLength(row: seq<int>)
    ensures |EncodeRow(row)| >= |row|
    ensures |EncodeRow(row)| == |row| <==> IsDigitRow(row)
  {
    if row != [] {
      EncodeRowLength(row[1..]);
      if IsDigitRow(row[1..]) && 0 <= row[0] <= 9 {
        assert IsDigitRow(row);
      }
    }
  }

  lemma {:induction false} EncodeRowDigits(row: seq<int>)
    requires IsDigitRow(row)
    ensures |EncodeRow(row)| == |row|
    ensures forall c :: 0 <= c < |row| ==> EncodeRow(row)[c] == DigitChar(row[c])
  {
    if row != [] {
      EncodeRowDigits(row[1..]);
      assert IntToString(row[0]) == [DigitChar(row[0])];
    }
  }

  lemma {:induction false} EncodeRowsDigits(rows: seq<seq<int>>)
    requires forall r :: 0 <= r < |rows| ==> |rows[r]| == 9
    requires forall r, c :: 0 <= r < |rows| && 0 <= c < 9 ==> 0 <= rows[r][c] <= 9
    ensures |EncodeRows(rows)| == 9 * |rows|
    ensures forall r, c :: 0 <= r < |rows| && 0 <= c < 9 ==> EncodeRows(rows)[9 * r + c] == DigitChar(rows[r][c])
  {
    if rows != [] {
      EncodeRowsDigits(rows[1..]);
      EncodeRowDigits(rows[0]);
      assert EncodeRows(rows) == EncodeRow(rows[0]) + EncodeRows(rows[1..]);
      forall r, c | 0 <= r < |rows| && 0 <= c < 9
        ensures EncodeRows(rows)[9 * r + c] == DigitChar(rows[r][c])
      {
        if r > 0 {
          assert rows[r] == rows[1..][r - 1];
          assert 9 * r + c - 9 == 9 * (r - 1) + c;
        }
      }
    }
  }

  lemma {:induction false} EncodeRowsLength(rows: seq<seq<int>>)
    requires forall r :: 0 <= r < |rows| ==> |rows[r]| == 9
    ensures |EncodeRows(rows)| >= 9 * |rows|
    ensures |EncodeRows(rows)| == 9 * |rows| <==> forall r :: 0 <= r < |rows| ==> IsDigitRow(rows[r])
  {
    if rows != [] {
      EncodeRowsLength(rows[1..]);
      EncodeRowLength(rows[0]);
      if IsDigitRow(rows[0]) && forall r :: 0 <= r < |rows| - 1 ==> IsDigitRow(rows[1..][r]) {
        forall r | 0 <= r < |rows| ensures IsDigitRow(rows[r]) {
          if r > 0 { assert rows[r] == rows[1..][r - 1]; }
        }
      }
    }
  }

  /**
   * On a digit grid the encoding has 81 characters, and the character at
   * 9 * r + c is the digit of cell (r, c).
   */
  lemma EncodeDigitGrid(g: seq<seq<int>>)
    requires IsDigitGrid(g)
    ensures |Encode(g)| == 81
    ensures forall r, c :: 0 <= r < 9 && 0 <= c < 9 ==> Encode(g)[9 * r + c] == DigitChar(g[r][c])
  {
    EncodeRowsDigits(g);
  }

  /**
   * The encoding is 81 characters long exactly when every cell is a digit;
   * a value such as 10 or -1 makes it longer.
   */
  lemma EncodeLength(g: seq<seq<int>>)
    requires IsGrid(g)
    ensures |Encode(g)| >= 81
    ensures |Encode(g)| == 81 <==> IsDigitGrid(g)
  {
    EncodeRowsLength(g);
    if |Encode(g)| == 81 {
      forall r, c | 0 <= r < 9 && 0 <= c < 9 ensures 0 <= g[r][c] <= 9 {
        assert IsDigitRow(g[r]);
      }
    }
  }

  /** Reading an 81-digit string back into a grid, one digit per cell in row-major order. */
  function DecodeGrid(s: string): (g: seq<seq<int>>)
    requires |s| == 81 && AllDigits(s)
    ensures IsDigitGrid(g)
  {
    var g := seq(9, r requires 0 <= r < 9 => seq(9, c requires 0 <= c < 9 => DigitValue(s[9 * r + c]) as int));
    assert forall r, c :: 0 <= r < 9 && 0 <= c < 9 ==> g[r][c] == DigitValue(s[9 * r + c]);
    g
  }

  /** A digit grid is recovered from its encoding. */
  lemma DecodeEncode(g: seq<seq<int>>)
    requires IsDigitGrid(g)
    ensures |Encode(g)| == 81 && AllDigits(Encode(g))
    ensures DecodeGrid(Encode(g)) == g
  {
    EncodeDigitGrid(g);
    var s := Encode(g);
    forall k | 0 <= k < 81 ensures IsDigit(s[k]) {
      var r, c := k / 9, k % 9;
      assert k == 9 * r + c;
      assert s[9 * r + c] == DigitChar(g[r][c]);
    }
    SameCells(DecodeGrid(s), g);
  }

  /** An 81-digit string is the encoding of the grid it decodes to. */
  lemma EncodeDecode(s: string)
    requires |s| == 81 && AllDigits(s)
    ensures Encode(DecodeGrid(s)) == s
  {
    var g := DecodeGrid(s);
    EncodeDigitGrid(g);
    forall k | 0 <= k < 81 ensures Encode(g)[k] == s[k] {
      var r, c := k / 9, k % 9;
      assert k == 9 * r + c;
      assert g[r][c] == DigitValue(s[9 * r + c]);
      assert DigitChar(DigitValue(s[k])) == s[k];
    }
  }

  /**
   * What the solver hands back: a mapping whose keys are cell labels and
   * whose values `int` accepts.
   */
  predicate IsSolverOutput(m: map<string, string>) {
    forall k :: k in m ==> IsCellLabel(k) && IsIntConvertible(m[k])
  }

  /** The grid after the decode loop of `solve`: labelled cells take `int` of their value, the rest keep theirs. */
  function Applied(g: seq<seq<int>>, m: map<string, string>): (h: seq<seq<int>>)
    requires IsGrid(g) && IsSolverOutput(m)
    ensures IsGrid(h)
    ensures forall r, c :: 0 <= r < 9 && 0 <= c < 9 && CellLabel(r, c) !in m ==> h[r][c] == g[r][c]
  {
    seq(9, r requires 0 <= r < 9 =>
      seq(9, c requires 0 <= c < 9 =>
        var k := CellLabel(r, c);
        if k in m then ParseInt(m[k]) else g[r][c]))
  }

  /** A mapping that names all 81 cells determines the whole grid, whatever the grid held before. */
  lemma AppliedComplete(g1: seq<seq<int>>, g2: seq<seq<int>>, m: map<string, string>)
    requires IsGrid(g1) && IsGrid(g2) && IsSolverOutput(m)
    requires forall r, c :: 0 <= r < 9 && 0 <= c < 9 ==> CellLabel(r, c) in m
    ensures Applied(g1, m) == Applied(g2, m)
    ensures forall r, c :: 0 <= r < 9 && 0 <= c < 9 ==> Applied(g1, m)[r][c] == ParseInt(m[CellLabel(r, c)])
  {
    SameCells(Applied(g1, m), Applied(g2, m));
  }

  /**
   * Writing two mappings with disjoint labels one after the other, in either
   * order, is writing their union: the order of the writes does not matter.
   */
  lemma AppliedInEitherOrder(g: seq<seq<int>>, m1: map<string, string>, m2: map<string, string>)
    requires IsGrid(g) && IsSolverOutput(m1) && IsSolverOutput(m2)
    requires m1.Keys !! m2.Keys
    ensures IsSolverOutput(m1 + m2)
    ensures Applied(Applied(g, m1), m2) == Applied(g, m1 + m2)
    ensures Applied(Applied(g, m2), m1) == Applied(g, m1 + m2)
  {
    var u := m1 + m2;
    assert IsSolverOutput(u) by {
      forall k | k in u ensures IsCellLabel(k) && IsIntConvertible(u[k]) {
        if k in m2 { assert u[k] == m2[k]; } else { assert u[k] == m1[k]; }
      }
    }
    var a, b, h := Applied(Applied(g, m1), m2), Applied(Applied(g, m2), m1), Applied(g, u);
    forall r, c | 0 <= r < 9 && 0 <= c < 9 ensures a[r][c] == h[r][c] && b[r][c] == h[r][c] {
      var k := CellLabel(r, c);
      if k in m1 { assert k !in m2 && u[k] == m1[k]; }
      else if k in m2 { assert u[k] == m2[k]; }
    }
    SameCells(a, h);
    SameCells(b, h);
  }

  /** Two grids with the same cells are equal. */
  lemma SameCells(g: seq<seq<int>>, h: seq<seq<int>>)
    requires IsGrid(g) && IsGrid(h)
    requires forall r, c :: 0 <= r < 9 && 0 <= c < 9 ==> g[r][c] == h[r][c]
    ensures g == h
  {
    forall r | 0 <= r < 9 ensures g[r] == h[r] {
      assert forall c :: 0 <= c < 9 ==> g[r][c] == h[r][c];
    }
  }

  /**
   * The solver's promise not to alter the clues, in the terms of the encoded
   * grid it was given: every non-blank cell's label maps to that cell's
   * character of the grid string.
   */
  predicate KeepsClues(g: seq<seq<int>>, m: map<string, string>)
    requires IsDigitGrid(g)
  {
    |Encode(g)| == 81 &&
    forall r, c :: 0 <= r < 9 && 0 <= c < 9 && g[r][c] != 0 ==>
      CellLabel(r, c) in m && m[CellLabel(r, c)] == [Encode(g)[9 * r + c]]
  }

  /**
   * Encoding, solving and decoding agree on coordinates: a solution that
   * keeps the clues of the encoded grid leaves every non-blank cell as it was.
   */
  lemma CluesRetained(g: seq<seq<int>>, m: map<string, string>)
    requires IsDigitGrid(g) && IsSolverOutput(m) && KeepsClues(g, m)
    ensures forall r, c :: 0 <= r < 9 && 0 <= c < 9 && g[r][c] != 0 ==> Applied(g, m)[r][c] == g[r][c]
  {
    EncodeDigitGrid(g);
    forall r, c | 0 <= r < 9 && 0 <= c < 9 && g[r][c] != 0 ensures Applied(g, m)[r][c] == g[r][c] {
      ParseDigitChar(g[r][c]);
    }
  }

  /**
   * A complete solution of single digits 1..9 fills the grid: no blank is
   * left and every cell is a digit.
   */
  lemma SolvedGridIsFull(g: seq<seq<int>>, m: map<string, string>)
    requires IsGrid(g) && IsSolverOutput(m)
    requires forall r, c :: 0 <= r < 9 && 0 <= c < 9 ==>
      CellLabel(r, c) in m && |m[CellLabel(r, c)]| == 1 && '1' <= m[CellLabel(r, c)][0] <= '9'
    ensures IsDigitGrid(Applied(g, m))
    ensures forall r, c :: 0 <= r < 9 && 0 <= c < 9 ==> Applied(g, m)[r][c] != 0
  {
    forall r, c | 0 <= r < 9 && 0 <= c < 9 ensures 1 <= Applied(g, m)[r][c] <= 9 {
      var v := m[CellLabel(r, c)];
      var d := DigitValue(v[0]);
      assert v == [DigitChar(d)];
      ParseDigitChar(d);
    }
  }
}
