/** Python's `str.split(sep)` with an explicit separator, as used on the
    weights and impacts arguments (topsis.py:44-45). */
module Tokens {

  /** Number of occurrences of `sep` in `s`. */
  function Occurrences(s: string, sep: char): nat
  {
    if |s| == 0 then 0 else (if s[0] == sep then 1 else 0) + Occurrences(s[1..], sep)
  }

  /** Splits `s` at every `sep`. Like Python, an empty string gives one
      empty token and adjacent separators give empty tokens. */
  function Split(s: string, sep: char): (parts: seq<string>)
    ensures |parts| == Occurrences(s, sep) + 1
    ensures forall i :: 0 <= i < |parts| ==> sep !in parts[i]
  {
    if |s| == 0 then [""]
    else
      var rest := Split(s[1..], sep);
      if s[0] == sep then [""] + rest
      else [[s[0]] + rest[0]] + rest[1..]
  }

  /** `sep.join(parts)`. */
  function Join(parts: seq<string>, sep: char): string
    requires |parts| > 0
  {
    if |parts| == 1 then parts[0] else parts[0] + [sep] + Join(parts[1..], sep)
  }

  /** Splitting loses nothing: joining the tokens gives back the argument. */
  lemma {:induction false} JoinSplit(s: string, sep: char)
    ensures Join(Split(s, sep), sep) == s
  {
    if |s| > 0 {
      JoinSplit(s[1..], sep);
      var rest := Split(s[1..], sep);
      if s[0] != sep {
        if |rest| == 1 {
          assert Split(s, sep) == [[s[0]] + rest[0]];
        } else {
          assert Split(s, sep)[1..] == rest[1..];
          assert Join(rest, sep) == rest[0] + [sep] + Join(rest[1..], sep);
        }
      } else {
        assert Split(s, sep)[1..] == rest;
      }
    }
  }

  /** Splitting `p + [sep] + rest` when `p` holds no separator gives `p`
      followed by the tokens of `rest`. */
  lemma {:induction false} SplitAfterToken(p: string, sep: char, rest: string)
    requires sep !in p
    ensures Split(p + [sep] + rest, sep) == [p] + Split(rest, sep)
  {
    if |p| > 0 {
      var whole := p + [sep] + rest;
      SplitAfterToken(p[1..], sep, rest);
      assert whole[0] == p[0] && whole[1..] == p[1..] + [sep] + rest;
      assert [p[0]] + p[1..] == p;
    } else {
      assert p + [sep] + rest == [sep] + rest;
    }
  }

  /** The tokens of a string with no separator are that string alone. */
  lemma {:induction false} SplitNoSeparator(p: string, sep: char)
    requires sep !in p
    ensures Split(p, sep) == [p]
  {
    if |p| > 0 {
      SplitNoSeparator(p[1..], sep);
      assert [p[0]] + p[1..] == p;
    }
  }

  /** Joining tokens that hold no separator and splitting again gives the
      same tokens back. */
  lemma {:induction false} SplitJoin(parts: seq<string>, sep: char)
    requires |parts| > 0
    requires forall i :: 0 <= i < |parts| ==> sep !in parts[i]
    ensures Split(Join(parts, sep), sep) == parts
  {
    if |parts| == 1 {
      SplitNoSeparator(parts[0], sep);
    } else {
      SplitJoin(parts[1..], sep);
      SplitAfterToken(parts[0], sep, Join(parts[1..], sep));
    }
  }
}
