/**
 * Row entry: turning one typed line into tokens, `SudokuMatrix.validate_row`,
 * and which rows a sequence of typed lines yields.
 */
module RowInput {
  import opened IntText
  import opened Text

  /** The tokens of a typed line: spaces removed, then split on ','. */
  function Tokenize(line: string): (tokens: seq<string>)
    ensures |tokens| >= 1
    ensures forall i :: 0 <= i < |tokens| ==> ' ' !in tokens[i] && ',' !in tokens[i]
  {
    SplitWithout(RemoveSpaces(line), ',', ' ');
    Split(RemoveSpaces(line), ',')
  }

  /** Joining the tokens with ',' gives the line without its spaces. */
  lemma TokenizeJoin(line: string)
    ensures Join(Tokenize(line), ',') == RemoveSpaces(line)
  {
    JoinSplit(RemoveSpaces(line), ',');
  }

  /** A row typed as its tokens separated by commas tokenises back to those tokens. */
  lemma {:induction false} JoinTokenize(tokens: seq<string>)
    requires |tokens| >= 1
    requires forall i :: 0 <= i < |tokens| ==> ' ' !in tokens[i] && ',' !in tokens[i]
    ensures Tokenize(Join(tokens, ',')) == tokens
  {
    JoinWithout(tokens, ',', ' ');
    SplitJoin(tokens, ',');
  }

  lemma {:induction false} JoinWithout(parts: seq<string>, sep: char, c: char)
    requires |parts| >= 1 && c != sep
    requires forall i :: 0 <= i < |parts| ==> c !in parts[i]
    ensures c !in Join(parts, sep)
  {
    if |parts| > 1 {
      JoinWithout(parts[1..], sep, c);
    }
  }

  predicate AllConvertible(tokens: seq<string>) {
    forall i :: 0 <= i < |tokens| ==> IsIntConvertible(tokens[i])
  }

  /** `[int(i) for i in row_list]`. */
  function ParseRow(tokens: seq<string>): (values: seq<int>)
    requires AllConvertible(tokens)
    ensures |values| == |tokens|
    ensures forall i :: 0 <= i < |tokens| ==> TryParseInt(tokens[i]).Some? && TryParseInt(tokens[i]).value == values[i]
  {
    seq(|tokens|, i requires 0 <= i < |tokens| => ParseInt(tokens[i]))
  }

  /** `[i for i in row_list_int if i > 0]`: the positive values, in order. */
  function Positives(values: seq<int>): (r: seq<int>)
    ensures |r| <= |values|
  {
    if values == [] then []
    else
      if values[0] > 0 then [values[0]] + Positives(values[1..]) else Positives(values[1..])
  }

  /** The filter keeps exactly the positive values. */
  lemma {:induction false} PositivesMembers(values: seq<int>)
    ensures forall x :: x in Positives(values) <==> x in values && x > 0
  {
    if values != [] {
      PositivesMembers(values[1..]);
      assert values == [values[0]] + values[1..];
    }
  }

  /** `set(xs)`: the values of `xs`, each once. */
  function ElementSet(xs: seq<int>): (r: set<int>)
    ensures |r| <= |xs|
    ensures forall i :: 0 <= i < |xs| ==> xs[i] in r
  {
    SetOfSeqSize(xs);
    set x | x in xs
  }

  /** A sequence has no more distinct values than elements. */
  lemma {:induction false} SetOfSeqSize(xs: seq<int>)
    ensures |set x | x in xs| <= |xs|
  {
    if xs != [] {
      SetOfSeqSize(xs[1..]);
      assert (set x | x in xs) == {xs[0]} + (set x | x in xs[1..]);
    }
  }

  /** No positive value occurs twice; zeros (and negative values) may repeat. */
  predicate DistinctPositives(values: seq<int>) {
    forall i, j :: 0 <= i < j < |values| && values[i] > 0 ==> values[i] != values[j]
  }

  /**
   * The length test of `validate_row`: the positive values are as many as
   * their set exactly when no positive value repeats.
   */
  lemma {:induction false} PositivesSetSize(values: seq<int>)
    ensures |ElementSet(Positives(values))| <= |Positives(values)|
    ensures |ElementSet(Positives(values))| == |Positives(values)| <==> DistinctPositives(values)
  {
    if values != [] {
      var v, tail := values[0], values[1..];
      PositivesSetSize(tail);
      PositivesMembers(tail);
      var p, pt := Positives(values), Positives(tail);
      assert DistinctPositives(values) <==> (v > 0 ==> v !in tail) && DistinctPositives(tail) by {
        if DistinctPositives(values) {
          forall i, j | 0 <= i < j < |tail| && tail[i] > 0 ensures tail[i] != tail[j] {
            assert values[i + 1] == tail[i] && values[j + 1] == tail[j];
          }
        }
        if (v > 0 ==> v !in tail) && DistinctPositives(tail) {
          forall i, j | 0 <= i < j < |values| && values[i] > 0 ensures values[i] != values[j] {
            if i > 0 {
              assert values[i] == tail[i - 1] && values[j] == tail[j - 1];
            } else {
              assert values[j] == tail[j - 1];
            }
          }
        }
      }
      if v > 0 {
        assert p == [v] + pt;
        assert ElementSet(p) == {v} + ElementSet(pt);
        if v in tail {
          assert v in ElementSet(pt);
          assert ElementSet(p) == ElementSet(pt);
        } else {
          assert v !in ElementSet(pt);
        }
      } else {
        assert p == pt;
      }
    }
  }

  /**
   * `SudokuMatrix.validate_row`: a row is accepted exactly when it has nine
   * tokens, every token converts with `int`, and no positive value repeats.
   * There is no range check.
   */
  function ValidateRow(tokens: seq<string>): bool
    ensures ValidateRow(tokens) ==> |tokens| == 9 && AllConvertible(tokens)
  {
    if |tokens| != 9 then false
    else if !AllConvertible(tokens) then false
    else
      var values := ParseRow(tokens);
      |Positives(values)| == |ElementSet(Positives(values))|
  }

  /** What `validate_row` decides: nine tokens, each convertible with `int`, and no positive value twice. */
  lemma ValidateRowMeaning(tokens: seq<string>)
    ensures ValidateRow(tokens) <==> |tokens| == 9 && AllConvertible(tokens) && DistinctPositives(ParseRow(tokens))
  {
    if |tokens| == 9 && AllConvertible(tokens) {
      PositivesSetSize(ParseRow(tokens));
    }
  }

  /** A typed line that the validator accepts. */
  predicate Accepts(line: string)
    ensures Accepts(line) ==> |Tokenize(line)| == 9 && AllConvertible(Tokenize(line))
    ensures Accepts(line) ==> DistinctPositives(ParseRow(Tokenize(line)))
  {
    ValidateRowMeaning(Tokenize(line));
    ValidateRow(Tokenize(line))
  }

  /** The row `from_input` stores for an accepted line. */
  function ParseLine(line: string): (values: seq<int>)
    requires Accepts(line)
    ensures |values| == 9 && DistinctPositives(values)
    ensures forall i :: 0 <= i < 9 ==> TryParseInt(Tokenize(line)[i]).Some? && TryParseInt(Tokenize(line)[i]).value == values[i]
  {
    ParseRow(Tokenize(line))
  }

  /** Every line from position `lo` up to `hi` was refused by the validator. */
  predicate Rejected(lines: seq<string>, lo: nat, hi: nat)
    requires hi <= |lines|
    decreases hi
  {
    hi <= lo || (!Accepts(lines[hi - 1]) && Rejected(lines, lo, hi - 1))
  }

  lemma {:induction false} RejectedMeaning(lines: seq<string>, lo: nat, hi: nat)
    requires hi <= |lines|
    ensures Rejected(lines, lo, hi) <==> forall k :: lo <= k < hi ==> !Accepts(lines[k])
    decreases hi
  {
    if lo < hi {
      RejectedMeaning(lines, lo, hi - 1);
    }
  }

  /** The rows that a sequence of typed lines yields: every accepted line, in order; rejected lines are dropped. */
  function AcceptedRows(lines: seq<string>): (rows: seq<seq<int>>)
    ensures |rows| <= |lines|
  {
    if lines == [] then []
    else
      var last := lines[|lines| - 1];
      var rows := AcceptedRows(lines[..|lines| - 1]);
      if Accepts(last) then rows + [ParseLine(last)] else rows
  }

  /** Every collected row passed `validate_row`: it holds nine values and no positive value occurs twice in it. */
  lemma {:induction false} AcceptedRowsValid(lines: seq<string>)
    ensures forall k :: 0 <= k < |AcceptedRows(lines)| ==>
      |AcceptedRows(lines)[k]| == 9 && DistinctPositives(AcceptedRows(lines)[k])
  {
    if lines != [] {
      var last := lines[|lines| - 1];
      AcceptedRowsValid(lines[..|lines| - 1]);
      ValidateRowMeaning(Tokenize(last));
    }
  }

  /** Reading one more line adds its row when it is accepted, and nothing otherwise. */
  lemma AcceptedRowsSnoc(lines: seq<string>, n: nat)
    requires 0 < n <= |lines|
    ensures AcceptedRows(lines[..n]) ==
      if Accepts(lines[n - 1]) then AcceptedRows(lines[..n - 1]) + [ParseLine(lines[n - 1])]
      else AcceptedRows(lines[..n - 1])
  {
    assert lines[..n][..n - 1] == lines[..n - 1];
  }

  lemma {:induction false} AcceptedRowsConcat(a: seq<string>, b: seq<string>)
    ensures AcceptedRows(a + b) == AcceptedRows(a) + AcceptedRows(b)
  {
    if b == [] {
      assert a + b == a;
    } else {
      var b' := b[..|b| - 1];
      AcceptedRowsConcat(a, b');
      assert (a + b)[..|a + b| - 1] == a + b';
    }
  }

  /** Refused lines add no row. */
  lemma {:induction false} AcceptedRowsRejected(lines: seq<string>, lo: nat, hi: nat)
    requires lo <= hi <= |lines|
    requires Rejected(lines, lo, hi)
    ensures AcceptedRows(lines[..hi]) == AcceptedRows(lines[..lo])
    decreases hi
  {
    if lo < hi {
      AcceptedRowsSnoc(lines, hi);
      AcceptedRowsRejected(lines, lo, hi - 1);
    }
  }

  /** When every line from `start` on is refused, the input yields no row after those of its first `start` lines. */
  lemma AcceptedRowsAllRejected(lines: seq<string>, start: nat)
    requires start <= |lines|
    requires Rejected(lines, start, |lines|)
    ensures AcceptedRows(lines) == AcceptedRows(lines[..start])
  {
    AcceptedRowsRejected(lines, start, |lines|);
    assert lines[..|lines|] == lines;
  }

  /** Refused lines followed by an accepted one add exactly the accepted line's row. */
  lemma AcceptedRowsFound(lines: seq<string>, start: nat, read: nat)
    requires start < read <= |lines|
    requires Rejected(lines, start, read - 1) && Accepts(lines[read - 1])
    ensures AcceptedRows(lines[..read]) == AcceptedRows(lines[..start]) + [ParseLine(lines[read - 1])]
  {
    AcceptedRowsRejected(lines, start, read - 1);
    AcceptedRowsSnoc(lines, read);
  }

  /** The rows of a prefix of the lines are a prefix of the rows of all the lines. */
  lemma AcceptedRowsPrefix(lines: seq<string>, n: nat)
    requires n <= |lines|
    ensures |AcceptedRows(lines[..n])| <= |AcceptedRows(lines)|
    ensures AcceptedRows(lines)[..|AcceptedRows(lines[..n])|] == AcceptedRows(lines[..n])
  {
    AcceptedRowsConcat(lines[..n], lines[n..]);
    assert lines[..n] + lines[n..] == lines;
  }

  /** A rejected line, and the re-prompt after it, leave the collected rows as if it had never been typed. */
  lemma RejectedLineIgnored(before: seq<string>, bad: string, after: seq<string>)
    requires !Accepts(bad)
    ensures AcceptedRows(before + [bad] + after) == AcceptedRows(before + after)
  {
    AcceptedRowsConcat(before + [bad], after);
    AcceptedRowsConcat(before, [bad]);
    AcceptedRowsConcat(before, after);
    assert AcceptedRows([bad]) == [];
  }
}
