/** Example rows checked against `ValidateRow`: the row shown in the input prompt, and rows that each break one rule. */
module RowExamples {
  import opened IntText
  import opened RowInput

  /** The one-digit tokens of a row of digits. */
  function DigitTokens(values: seq<int>): seq<string>
    requires forall i :: 0 <= i < |values| ==> 0 <= values[i] <= 9
  {
    seq(|values|, i requires 0 <= i < |values| => [DigitChar(values[i])])
  }

  lemma ParseDigitTokens(values: seq<int>)
    requires forall i :: 0 <= i < |values| ==> 0 <= values[i] <= 9
    ensures AllConvertible(DigitTokens(values)) && ParseRow(DigitTokens(values)) == values
  {
    forall i | 0 <= i < |values| ensures IsIntConvertible(DigitTokens(values)[i]) && ParseInt(DigitTokens(values)[i]) == values[i] {
      ParseDigitChar(values[i]);
    }
  }

  lemma DistinctPositivesCons(v: int, rest: seq<int>)
    requires v > 0 ==> v !in rest
    requires DistinctPositives(rest)
    ensures DistinctPositives([v] + rest)
  {
    var vs := [v] + rest;
    forall i, j | 0 <= i < j < |vs| && vs[i] > 0 ensures vs[i] != vs[j] {
      assert vs[j] == rest[j - 1];
      if i > 0 { assert vs[i] == rest[i - 1]; }
    }
  }

  /** A full row of distinct digits is accepted and read as those digits. */
  lemma AcceptsOneToNine()
    ensures ValidateRow(["1", "2", "3", "4", "5", "6", "7", "8", "9"])
    ensures ParseRow(["1", "2", "3", "4", "5", "6", "7", "8", "9"]) == [1, 2, 3, 4, 5, 6, 7, 8, 9]
  {
    var v := [1, 2, 3, 4, 5, 6, 7, 8, 9];
    ParseDigitTokens(v);
    OneToNineTokens();
    OneToNineDistinct();
    ValidateRowMeaning(["1", "2", "3", "4", "5", "6", "7", "8", "9"]);
  }

  lemma OneToNineTokens()
    ensures DigitTokens([1, 2, 3, 4, 5, 6, 7, 8, 9]) == ["1", "2", "3", "4", "5", "6", "7", "8", "9"]
  {
  }

  lemma OneToNineDistinct()
    ensures DistinctPositives([1, 2, 3, 4, 5, 6, 7, 8, 9])
  {
    DistinctPositivesCons(9, []);
    DistinctPositivesCons(8, [9]);
    DistinctPositivesCons(7, [8, 9]);
    DistinctPositivesCons(6, [7, 8, 9]);
    DistinctPositivesCons(5, [6, 7, 8, 9]);
    DistinctPositivesCons(4, [5, 6, 7, 8, 9]);
    DistinctPositivesCons(3, [4, 5, 6, 7, 8, 9]);
    DistinctPositivesCons(2, [3, 4, 5, 6, 7, 8, 9]);
    DistinctPositivesCons(1, [2, 3, 4, 5, 6, 7, 8, 9]);
  }

  /** The example row of the prompt, 4,2,0,0,8,0,0,0,0, is accepted: zeros may repeat. */
  lemma AcceptsPromptExample()
    ensures ValidateRow(["4", "2", "0", "0", "8", "0", "0", "0", "0"])
    ensures ParseRow(["4", "2", "0", "0", "8", "0", "0", "0", "0"]) == [4, 2, 0, 0, 8, 0, 0, 0, 0]
  {
    var v := [4, 2, 0, 0, 8, 0, 0, 0, 0];
    var t := DigitTokens(v);
    assert t == ["4", "2", "0", "0", "8", "0", "0", "0", "0"];
    ParseDigitTokens(v);
    PromptExampleDistinct();
    ValidateRowMeaning(t);
  }

  lemma PromptExampleDistinct()
    ensures DistinctPositives([4, 2, 0, 0, 8, 0, 0, 0, 0])
  {
    var zeros := [0, 0, 0, 0];
    DistinctPositivesCons(0, zeros);
    DistinctPositivesCons(8, [0] + zeros);
    DistinctPositivesCons(0, [8, 0] + zeros);
    DistinctPositivesCons(0, [0, 8, 0] + zeros);
    DistinctPositivesCons(2, [0, 0, 8, 0] + zeros);
    DistinctPositivesCons(4, [2, 0, 0, 8, 0] + zeros);
  }

  /** A row with only blanks is accepted. */
  lemma AcceptsAllBlanks()
    ensures ValidateRow(["0", "0", "0", "0", "0", "0", "0", "0", "0"])
  {
    var v := [0, 0, 0, 0, 0, 0, 0, 0, 0];
    ParseDigitTokens(v);
    assert DigitTokens(v) == ["0", "0", "0", "0", "0", "0", "0", "0", "0"];
    ValidateRowMeaning(DigitTokens(v));
  }

  /** A digit other than 0 given twice is refused. */
  lemma RejectsRepeatedDigit()
    ensures !ValidateRow(["1", "1", "0", "0", "0", "0", "0", "0", "0"])
  {
    var v := [1, 1, 0, 0, 0, 0, 0, 0, 0];
    ParseDigitTokens(v);
    assert DigitTokens(v) == ["1", "1", "0", "0", "0", "0", "0", "0", "0"];
    ValidateRowMeaning(DigitTokens(v));
  }

  /** A row of fewer than nine tokens is refused. */
  lemma RejectsShortRow()
    ensures !ValidateRow(["1", "2", "3"])
  {
  }

  /** A token `int` cannot read is refused. */
  lemma RejectsNonNumericToken()
    ensures !ValidateRow(["a", "2", "3", "4", "5", "6", "7", "8", "9"])
  {
    assert !IsIntConvertible("a");
  }

  /** There is no range check: 10 is accepted as a cell value. */
  lemma AcceptsValueAboveNine()
    ensures ValidateRow(["10", "1", "2", "3", "4", "5", "6", "7", "8"])
  {
    ValueAboveNineParses();
    ValueAboveNineDistinct();
    ValidateRowMeaning(["10", "1", "2", "3", "4", "5", "6", "7", "8"]);
  }

  lemma ValueAboveNineParses()
    ensures AllConvertible(["10", "1", "2", "3", "4", "5", "6", "7", "8"])
    ensures ParseRow(["10", "1", "2", "3", "4", "5", "6", "7", "8"]) == [10, 1, 2, 3, 4, 5, 6, 7, 8]
  {
    var t := ["10", "1", "2", "3", "4", "5", "6", "7", "8"];
    var v := [1, 2, 3, 4, 5, 6, 7, 8];
    ParseDigitTokens(v);
    assert DigitTokens(v) == t[1..];
    IntToStringRoundTrip(10);
    assert IntToString(10) == "10";
  }

  lemma ValueAboveNineDistinct()
    ensures DistinctPositives([10, 1, 2, 3, 4, 5, 6, 7, 8])
  {
    DistinctPositivesCons(8, []);
    DistinctPositivesCons(7, [8]);
    DistinctPositivesCons(6, [7, 8]);
    DistinctPositivesCons(5, [6, 7, 8]);
    DistinctPositivesCons(4, [5, 6, 7, 8]);
    DistinctPositivesCons(3, [4, 5, 6, 7, 8]);
    DistinctPositivesCons(2, [3, 4, 5, 6, 7, 8]);
    DistinctPositivesCons(1, [2, 3, 4, 5, 6, 7, 8]);
    DistinctPositivesCons(10, [1, 2, 3, 4, 5, 6, 7, 8]);
  }
}
