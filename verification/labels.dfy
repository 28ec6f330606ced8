/**
 * Cell labels at the solver boundary: a row letter from "ABCDEFGHI" followed
 * by a column digit from "123456789", decoded with `str.find`.
 */
module Labels {
  const RowLetters: string := "ABCDEFGHI"
  const ColumnDigits: string := "123456789"

  /** `s.find(c)`: the index of the first occurrence of `c`, or -1 when there is none. */
  function Find(s: string, c: char): (r: int)
    ensures -1 <= r < |s|
    ensures r == -1 <==> c !in s
    ensures r >= 0 ==> s[r] == c && c !in s[..r]
  {
    if s == [] then -1
    else if s[0] == c then 0
    else
      var k := Find(s[1..], c);
      assert k >= 0 ==> s[..k + 1] == [s[0]] + s[1..][..k];
      if k < 0 then -1 else k + 1
  }

  /** The label of the cell at (row, col), e.g. "A1" for (0, 0). */
  function CellLabel(row: nat, col: nat): string
    requires row < 9 && col < 9
  {
    [RowLetters[row], ColumnDigits[col]]
  }

  /** A two-character label whose letter and digit name a cell. */
  predicate IsCellLabel(k: string) {
    |k| == 2 && k[0] in RowLetters && k[1] in ColumnDigits
  }

  /** The row and column `solve` writes for a label: the positions of its two characters. */
  function LabelRow(k: string): (r: int)
    requires |k| >= 1
    ensures -1 <= r < 9
    ensures r == -1 <==> k[0] !in RowLetters
    ensures r >= 0 ==> RowLetters[r] == k[0]
  {
    Find(RowLetters, k[0])
  }

  function LabelColumn(k: string): (c: int)
    requires |k| >= 2
    ensures -1 <= c < 9
    ensures c == -1 <==> k[1] !in ColumnDigits
    ensures c >= 0 ==> ColumnDigits[c] == k[1]
  {
    Find(ColumnDigits, k[1])
  }

  lemma NoRepeatedLetters()
    ensures forall i, j :: 0 <= i < j < 9 ==> RowLetters[i] != RowLetters[j]
    ensures forall i, j :: 0 <= i < j < 9 ==> ColumnDigits[i] != ColumnDigits[j]
  {
  }

  /** Decoding the label of a cell gives back that cell. */
  lemma DecodeCellLabel(row: nat, col: nat)
    requires row < 9 && col < 9
    ensures IsCellLabel(CellLabel(row, col))
    ensures LabelRow(CellLabel(row, col)) == row && LabelColumn(CellLabel(row, col)) == col
  {
    NoRepeatedLetters();
    var k := CellLabel(row, col);
    var r, c := LabelRow(k), LabelColumn(k);
    assert RowLetters[row] in RowLetters && ColumnDigits[col] in ColumnDigits;
    assert RowLetters[row] !in RowLetters[..r];
    assert ColumnDigits[col] !in ColumnDigits[..c];
  }

  /** Every cell label decodes to a cell on the board, and that cell's label is the label itself. */
  lemma LabelDecodesToCell(k: string)
    requires IsCellLabel(k)
    ensures 0 <= LabelRow(k) < 9 && 0 <= LabelColumn(k) < 9
    ensures CellLabel(LabelRow(k), LabelColumn(k)) == k
  {
  }

  /** "A1" names the top-left cell and "I9" the bottom-right one. */
  lemma CornerLabels()
    ensures LabelRow("A1") == 0 && LabelColumn("A1") == 0
    ensures LabelRow("I9") == 8 && LabelColumn("I9") == 8
  {
    DecodeCellLabel(0, 0);
    DecodeCellLabel(8, 8);
    assert CellLabel(0, 0) == "A1" && CellLabel(8, 8) == "I9";
  }
}
