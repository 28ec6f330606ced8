/**
 * The Python string operations the board code uses: `replace` of one
 * character, `split` on a separator, the matching `join`, and the substring
 * test `s in t`.
 */
module Text {

  /** `s.replace(from, to)` for one-character `from` and `to`: every occurrence is replaced. */
  function ReplaceChar(s: string, from: char, to: char): (r: string)
    ensures |r| == |s|
  {
    if s == [] then [] else [if s[0] == from then to else s[0]] + ReplaceChar(s[1..], from, to)
  }

  /** Each character equal to `from` becomes `to`; every other character stays where it was. */
  lemma {:induction false} ReplaceCharAt(s: string, from: char, to: char)
    ensures forall i :: 0 <= i < |s| ==>
      ReplaceChar(s, from, to)[i] == (if s[i] == from then to else s[i])
  {
    if s != [] {
      ReplaceCharAt(s[1..], from, to);
      var r := ReplaceChar(s, from, to);
      forall i | 0 < i < |s| ensures r[i] == (if s[i] == from then to else s[i]) {
        assert r[i] == ReplaceChar(s[1..], from, to)[i - 1];
        assert s[i] == s[1..][i - 1];
      }
    }
  }

  /** `s.replace(' ', '')`: the same characters in the same order, spaces dropped. */
  function RemoveSpaces(s: string): (r: string)
    ensures ' ' !in r
    ensures ' ' !in s ==> r == s
  {
    if s == [] then []
    else
      if s[0] == ' ' then RemoveSpaces(s[1..]) else [s[0]] + RemoveSpaces(s[1..])
  }

  /** Removing spaces keeps every other character, as often as it occurred. */
  lemma {:induction false} RemoveSpacesKeepsOthers(s: string)
    ensures forall c :: c != ' ' ==> multiset(RemoveSpaces(s))[c] == multiset(s)[c]
  {
    if s != [] {
      RemoveSpacesKeepsOthers(s[1..]);
      assert s == [s[0]] + s[1..];
    }
  }

  /** What `replace(' ', '')` keeps of one character. */
  function Kept(c: char): (r: string)
    ensures ' ' !in r
    ensures c != ' ' ==> r == [c]
  {
    if c == ' ' then [] else [c]
  }

  /** Removing spaces from a string that starts with `c`: what is kept of `c`, then the rest with its spaces removed. */
  lemma RemoveSpacesCons(c: char, t: string)
    ensures RemoveSpaces([c] + t) == Kept(c) + RemoveSpaces(t)
  {
    var s := [c] + t;
    assert s[0] == c && s[1..] == t;
  }

  lemma AppendAssoc(x: string, y: string, z: string)
    ensures x + (y + z) == (x + y) + z
  {
  }

  lemma RemoveSpacesConcatStep(c: char, t: string, b: string)
    requires RemoveSpaces(t + b) == RemoveSpaces(t) + RemoveSpaces(b)
    ensures RemoveSpaces([c] + (t + b)) == RemoveSpaces([c] + t) + RemoveSpaces(b)
  {
    RemoveSpacesCons(c, t + b);
    RemoveSpacesCons(c, t);
    AppendAssoc(Kept(c), RemoveSpaces(t), RemoveSpaces(b));
  }

  /**
   * Removing spaces distributes over concatenation. With `RemoveSpacesCons`
   * this fixes the result: every other character is kept, in its original
   * order.
   */
  lemma {:induction false} RemoveSpacesConcat(a: string, b: string)
    ensures RemoveSpaces(a + b) == RemoveSpaces(a) + RemoveSpaces(b)
  {
    if a == [] {
      var e: string := [];
      assert e + b == b;
    } else {
      var c, t := a[0], a[1..];
      RemoveSpacesConcat(t, b);
      assert a == [c] + t;
      assert a + b == [c] + (t + b);
      RemoveSpacesConcatStep(c, t, b);
    }
  }

  /** `sep.join(parts)`. */
  function Join(parts: seq<string>, sep: char): string
    requires |parts| >= 1
  {
    if |parts| == 1 then parts[0] else parts[0] + [sep] + Join(parts[1..], sep)
  }

  /**
   * `s.split(sep)`: the pieces between separators, always at least one (the
   * empty string splits into one empty piece). No piece holds the separator.
   */
  function Split(s: string, sep: char): (parts: seq<string>)
    ensures |parts| >= 1
    ensures forall i :: 0 <= i < |parts| ==> sep !in parts[i]
  {
    if s == [] then [""]
    else
      var rest := Split(s[1..], sep);
      if s[0] == sep then [""] + rest
      else [[s[0]] + rest[0]] + rest[1..]
  }

  /** A character that is not in the string is in none of its pieces. */
  lemma {:induction false} SplitWithout(s: string, sep: char, c: char)
    requires c !in s
    ensures forall i :: 0 <= i < |Split(s, sep)| ==> c !in Split(s, sep)[i]
  {
    if s != [] {
      SplitWithout(s[1..], sep, c);
    }
  }

  /** Joining the pieces of a split gives back the string. */
  lemma {:induction false} JoinSplit(s: string, sep: char)
    ensures Join(Split(s, sep), sep) == s
  {
    if s != [] {
      JoinSplit(s[1..], sep);
      var rest := Split(s[1..], sep);
      if s[0] == sep {
        assert ([""] + rest)[1..] == rest;
      } else {
        var parts := [[s[0]] + rest[0]] + rest[1..];
        if |rest| > 1 {
          assert parts[1..] == rest[1..];
        }
      }
    }
  }

  /** Text up to the first separator is the first piece; the rest splits on its own. */
  lemma {:induction false} SplitAtSep(p: string, t: string, sep: char)
    requires sep !in p
    ensures Split(p + [sep] + t, sep) == [p] + Split(t, sep)
  {
    if p == [] {
      assert ([sep] + t)[1..] == t;
    } else {
      assert (p + [sep] + t)[1..] == p[1..] + [sep] + t;
      SplitAtSep(p[1..], t, sep);
      assert [p[0]] + p[1..] == p;
    }
  }

  /** Splitting the joined pieces gives back the pieces, when none holds the separator. */
  lemma {:induction false} SplitJoin(parts: seq<string>, sep: char)
    requires |parts| >= 1
    requires forall i :: 0 <= i < |parts| ==> sep !in parts[i]
    ensures Split(Join(parts, sep), sep) == parts
  {
    if |parts| == 1 {
      SplitNoSep(parts[0], sep);
    } else {
      SplitJoin(parts[1..], sep);
      SplitAtSep(parts[0], Join(parts[1..], sep), sep);
      assert [parts[0]] + parts[1..] == parts;
    }
  }

  /** Joining with one more piece at the end. */
  lemma {:induction false} JoinSnoc(parts: seq<string>, last: string, sep: char)
    requires |parts| >= 1
    ensures Join(parts + [last], sep) == Join(parts, sep) + [sep] + last
  {
    if |parts| > 1 {
      JoinSnoc(parts[1..], last, sep);
      assert (parts + [last])[1..] == parts[1..] + [last];
    }
  }

  /** Text appended after a join lands in the last piece. */
  lemma {:induction false} JoinExtendLast(parts: seq<string>, last: string, more: string, sep: char)
    ensures Join(parts + [last], sep) + more == Join(parts + [last + more], sep)
  {
    if parts != [] {
      JoinExtendLast(parts[1..], last, more, sep);
      assert (parts + [last])[1..] == parts[1..] + [last];
      assert (parts + [last + more])[1..] == parts[1..] + [last + more];
    }
  }

  /** A string without the separator is one piece. */
  lemma {:induction false} SplitNoSep(s: string, sep: char)
    requires sep !in s
    ensures Split(s, sep) == [s]
  {
    if s != [] {
      assert sep !in s[1..];
      SplitNoSep(s[1..], sep);
      assert [s[0]] + s[1..] == s;
    }
  }

  /** Python's substring test `s in t`. */
  predicate Contains(t: string, s: string)
    ensures Contains(t, s) ==> |s| <= |t|
    ensures s <= t ==> Contains(t, s)
  {
    s <= t || (|t| > 0 && Contains(t[1..], s))
  }
}
