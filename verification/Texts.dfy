/** Splitting text at a separator. Texts are sequences of UTF-8 bytes, one `char` per byte. */
module Texts {

  predicate Lacks(s: string, c: char) {
    forall i :: 0 <= i < |s| ==> s[i] != c
  }

  /** The pieces between separators; there is always at least one. */
  function Split(s: string, sep: char): (pieces: seq<string>)
    ensures |pieces| >= 1
  {
    if s == "" then [""]
    else
      var earlier, c := Split(s[..|s| - 1], sep), s[|s| - 1];
      if c == sep then earlier + [""]
      else earlier[..|earlier| - 1] + [earlier[|earlier| - 1] + [c]]
  }

  lemma {:induction false} SplitWhole(s: string, sep: char)
    requires Lacks(s, sep)
    ensures Split(s, sep) == [s]
  {
    if s != "" {
      SplitWhole(s[..|s| - 1], sep);
      assert s == s[..|s| - 1] + [s[|s| - 1]];
    }
  }

  /** The pieces with one more character behind them. */
  function Continued(pieces: seq<string>, c: char, sep: char): seq<string>
    requires pieces != []
  {
    if c == sep then pieces + [""] else pieces[..|pieces| - 1] + [pieces[|pieces| - 1] + [c]]
  }

  lemma SplitNext(s: string, c: char, sep: char)
    ensures Split(s + [c], sep) == Continued(Split(s, sep), c, sep)
  {
    assert (s + [c])[..|s|] == s;
  }

  lemma ContinuedBehind(first: string, pieces: seq<string>, c: char, sep: char)
    requires pieces != []
    ensures Continued([first] + pieces, c, sep) == [first] + Continued(pieces, c, sep)
  {
  }

  lemma SplitBehind(whole: string, first: string, rest: string, c: char, sep: char)
    requires Split(whole, sep) == [first] + Split(rest, sep)
    ensures Split(whole + [c], sep) == [first] + Split(rest + [c], sep)
  {
    SplitNext(whole, c, sep);
    SplitNext(rest, c, sep);
    ContinuedBehind(first, Split(rest, sep), c, sep);
  }

  lemma LastApart(opening: string, rest: string)
    requires rest != ""
    ensures opening + rest == opening + rest[..|rest| - 1] + [rest[|rest| - 1]]
    ensures rest == rest[..|rest| - 1] + [rest[|rest| - 1]]
  {
  }

  lemma {:induction false} SplitFirst(first: string, sep: char, rest: string)
    requires Lacks(first, sep)
    ensures Split(first + [sep] + rest, sep) == [first] + Split(rest, sep)
  {
    var opening := first + [sep];
    if rest == "" {
      SplitWhole(first, sep);
      SplitNext(first, sep, sep);
      assert opening + rest == opening;
    } else {
      var front, c := rest[..|rest| - 1], rest[|rest| - 1];
      SplitFirst(first, sep, front);
      SplitBehind(opening + front, first, front, c, sep);
      LastApart(opening, rest);
    }
  }

  lemma {:induction false} SplitLast(s: string, sep: char, last: string)
    requires Lacks(last, sep)
    ensures Split(s + [sep] + last, sep) == Split(s, sep) + [last]
  {
    var whole := s + [sep] + last;
    if last == "" {
      assert whole[..|whole| - 1] == s;
    } else {
      var front := last[..|last| - 1];
      SplitLast(s, sep, front);
      assert whole[..|whole| - 1] == s + [sep] + front;
      assert last == front + [last[|last| - 1]];
    }
  }
}
