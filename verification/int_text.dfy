/**
 * Decimal text of integers: Python's `str` on an int, and the subset of
 * Python's `int(...)` on a string that the row validator relies on
 * (an optional sign followed by one or more ASCII digits).
 */
module IntText {
  import opened Wrappers

  predicate IsDigit(c: char) {
    '0' <= c <= '9'
  }

  predicate AllDigits(s: string) {
    forall i :: 0 <= i < |s| ==> IsDigit(s[i])
  }

  function DigitValue(c: char): (d: nat)
    requires IsDigit(c)
    ensures d < 10
  {
    c as int - '0' as int
  }

  function DigitChar(d: nat): (c: char)
    requires d < 10
    ensures IsDigit(c) && DigitValue(c) == d
  {
    ('0' as int + d) as char
  }

  /** Decimal digits of a natural number, without leading zeros. */
  function NatToString(n: nat): (s: string)
    ensures 1 <= |s|
    ensures |s| == 1 <==> n < 10
  {
    if n < 10 then [DigitChar(n)] else NatToString(n / 10) + [DigitChar(n % 10)]
  }

  /** The decimal text is all digits and has no leading zero. */
  lemma {:induction false} NatToStringDigits(n: nat)
    ensures AllDigits(NatToString(n))
    ensures NatToString(n)[0] == '0' ==> n == 0
  {
    if n >= 10 {
      NatToStringDigits(n / 10);
      var s, p := NatToString(n), NatToString(n / 10);
      assert s == p + [DigitChar(n % 10)];
      forall i | 0 <= i < |s| ensures IsDigit(s[i]) {
        if i < |p| {
          assert s[i] == p[i];
        }
      }
      assert s[0] == p[0];
    }
  }

  /** Python's `str(x)` for an int `x`. */
  function IntToString(x: int): (s: string)
    ensures 1 <= |s|
    ensures |s| == 1 <==> 0 <= x <= 9
  {
    if x < 0 then "-" + NatToString(-x) else NatToString(x)
  }

  /** `str(x)` writes only digits and a minus sign. */
  lemma IntToStringChars(x: int)
    ensures forall i :: 0 <= i < |IntToString(x)| ==> IsDigit(IntToString(x)[i]) || IntToString(x)[i] == '-'
  {
    if x < 0 {
      NatToStringDigits(-x);
      var s, p := IntToString(x), NatToString(-x);
      forall i | 0 <= i < |s| ensures IsDigit(s[i]) || s[i] == '-' {
        if i > 0 {
          assert s[i] == p[i - 1];
        }
      }
    } else {
      NatToStringDigits(x);
    }
  }

  /** The integer literals accepted: an optional '+' or '-', then at least one digit. */
  predicate IsIntLiteral(s: string) {
    var body := if |s| > 0 && (s[0] == '+' || s[0] == '-') then s[1..] else s;
    |body| > 0 && AllDigits(body)
  }

  /** Value of a non-empty digit string, read left to right; None for any other string. */
  function ParseDigits(s: string): Option<nat> {
    if |s| == 0 || !IsDigit(s[|s| - 1]) then None
    else if |s| == 1 then Some(DigitValue(s[0]))
    else
      match ParseDigits(s[..|s| - 1])
      case None => None
      case Some(v) => Some(10 * v + DigitValue(s[|s| - 1]))
  }

  /** `int(s)` as a try-parse: Some(value) when `s` is an integer literal, None where Python raises ValueError. */
  function TryParseInt(s: string): (r: Option<int>)
    ensures r.Some? ==> |s| > 0
    ensures r.Some? && s[0] == '-' ==> r.value <= 0
    ensures r.Some? && s[0] != '-' ==> r.value >= 0
  {
    if |s| > 0 && s[0] == '-' then
      match ParseDigits(s[1..])
      case None => None
      case Some(v) => Some(-(v as int))
    else if |s| > 0 && s[0] == '+' then
      match ParseDigits(s[1..])
      case None => None
      case Some(v) => Some(v)
    else
      match ParseDigits(s)
      case None => None
      case Some(v) => Some(v)
  }

  /** `SudokuMatrix.is_int_convertible`: whether `int(s)` succeeds. */
  predicate IsIntConvertible(s: string)
    ensures IsIntConvertible(s) ==> |s| > 0
  {
    TryParseInt(s).Some?
  }

  /** A digit string reads as a number exactly when it is non-empty and all digits. */
  lemma {:induction false} ParseDigitsDefined(s: string)
    ensures ParseDigits(s).Some? <==> |s| > 0 && AllDigits(s)
  {
    if |s| > 1 && IsDigit(s[|s| - 1]) {
      var init := s[..|s| - 1];
      ParseDigitsDefined(init);
      if AllDigits(init) {
        assert AllDigits(s) by {
          forall i | 0 <= i < |s| ensures IsDigit(s[i]) {
            if i < |s| - 1 { assert s[i] == init[i]; }
          }
        }
      } else {
        var i :| 0 <= i < |init| && !IsDigit(init[i]);
        assert s[i] == init[i];
      }
    }
  }

  /** `int(s)` succeeds exactly on the integer literals: an optional sign, then one digit or more. */
  lemma IntLiteralsConvert(s: string)
    ensures IsIntConvertible(s) <==> IsIntLiteral(s)
  {
    if |s| > 0 && (s[0] == '+' || s[0] == '-') {
      ParseDigitsDefined(s[1..]);
    } else {
      ParseDigitsDefined(s);
    }
  }

  /** `int(s)` on a string that is known to convert. */
  function ParseInt(s: string): (x: int)
    requires IsIntConvertible(s)
    ensures s[0] == '-' ==> x <= 0
    ensures s[0] != '-' ==> x >= 0
  {
    TryParseInt(s).value
  }

  lemma {:induction false} ParseDigitsOfNatToString(n: nat)
    ensures ParseDigits(NatToString(n)) == Some(n)
  {
    if n >= 10 {
      ParseDigitsOfNatToString(n / 10);
      var s := NatToString(n);
      assert s[..|s| - 1] == NatToString(n / 10);
    }
  }

  /** Reading back the text `str` writes gives the same integer: `int(str(x)) == x`. */
  lemma IntToStringRoundTrip(x: int)
    ensures IsIntConvertible(IntToString(x))
    ensures TryParseInt(IntToString(x)) == Some(x)
  {
    var s := IntToString(x);
    if x < 0 {
      var p := NatToString(-x);
      ParseDigitsOfNatToString(-x);
      assert s[0] == '-' && s[1..] == p;
    } else {
      ParseDigitsOfNatToString(x);
      NatToStringDigits(x);
      assert IsDigit(s[0]);
    }
  }

  /** A single digit reads as its own value. */
  lemma ParseDigitChar(d: nat)
    requires d < 10
    ensures IsIntConvertible([DigitChar(d)]) && ParseInt([DigitChar(d)]) == d
  {
    IntToStringRoundTrip(d);
  }
}
