/**
 * The Python string operations `clean_data` applies to category values:
 * `str.split(';')`, the slice `x[:-2]`, the last character `.str[-1]` and
 * `int(c)` on a one-character string.
 */
module Strings {
  import opened Wrappers
  import opened Sequences

  /** The separator between category tokens. */
  const Separator: char := ';'

  /**
   * Python's `s.split(';')`: the pieces between separators, in order. There is
   * always at least one piece (`"".split(';') == ['']`) and no piece holds a separator.
   */
  function Split(s: string): (tokens: seq<string>)
    ensures |tokens| >= 1
    ensures forall k :: 0 <= k < |tokens| ==> Separator !in tokens[k]
    decreases |s|
  {
    if Separator !in s then [s]
    else
      var i := IndexOf(s, Separator);
      [s[..i]] + Split(s[i + 1..])
  }

  /** `';'.join(tokens)`, the inverse of `Split`. */
  function JoinTokens(tokens: seq<string>): string
    requires |tokens| >= 1
    decreases |tokens|
  {
    if |tokens| == 1 then tokens[0] else tokens[0] + [Separator] + JoinTokens(tokens[1..])
  }

  /** Splitting loses nothing: joining the tokens gives the string back. */
  lemma {:induction false} JoinSplit(s: string)
    ensures JoinTokens(Split(s)) == s
    decreases |s|
  {
    if Separator in s {
      var i := IndexOf(s, Separator);
      var rest := s[i + 1..];
      JoinSplit(rest);
      var ts := Split(s);
      assert ts == [s[..i]] + Split(rest);
      assert |ts| >= 2 && ts[0] == s[..i] && ts[1..] == Split(rest);
      calc {
        JoinTokens(ts);
        ts[0] + [Separator] + JoinTokens(ts[1..]);
        s[..i] + [Separator] + rest;
        { assert s == s[..i] + [Separator] + rest; }
        s;
      }
    }
  }

  /** Tokens without separators are recovered from their join. */
  lemma {:induction false} SplitJoin(tokens: seq<string>)
    requires |tokens| >= 1
    requires forall k :: 0 <= k < |tokens| ==> Separator !in tokens[k]
    ensures Split(JoinTokens(tokens)) == tokens
    decreases |tokens|
  {
    if |tokens| > 1 {
      var t0, rest := tokens[0], tokens[1..];
      SplitJoin(rest);
      SplitAfterPrefix(t0, JoinTokens(rest));
      assert tokens == [t0] + rest;
    }
  }

  /** A separator-free prefix followed by a separator is the first token. */
  lemma SplitAfterPrefix(p: string, rest: string)
    requires Separator !in p
    ensures Split(p + [Separator] + rest) == [p] + Split(rest)
  {
    var s := p + [Separator] + rest;
    IndexOfAfterPrefix(p, Separator, rest);
    assert s[..|p|] == p;
    assert s[|p| + 1..] == rest;
  }

  lemma {:induction false} IndexOfAfterPrefix(p: string, c: char, rest: string)
    requires c !in p
    ensures c in p + [c] + rest && IndexOf(p + [c] + rest, c) == |p|
    decreases |p|
  {
    var s := p + [c] + rest;
    assert s[|p|] == c;
    if |p| > 0 {
      IndexOfAfterPrefix(p[1..], c, rest);
      assert s[1..] == p[1..] + [c] + rest;
    }
  }

  /** Python's `x[:-2]`: the prefix of `x` that leaves out its last two characters. */
  function DropLastTwo(x: string): (name: string)
    ensures name <= x
    ensures |name| == if |x| >= 2 then |x| - 2 else 0
  {
    if |x| >= 2 then x[..|x| - 2] else ""
  }

  /** Pandas' `.str[-1]`: the last character, missing (NaN) for the empty string. */
  function LastChar(x: string): (c: Option<char>)
    ensures c.Some? <==> |x| > 0
    ensures c.Some? ==> x == x[..|x| - 1] + [c.value]
  {
    if |x| == 0 then None else Some(x[|x| - 1])
  }

  /** The character that writes the decimal digit `d`. */
  function DigitChar(d: int): char
    requires 0 <= d <= 9
  {
    ('0' as int + d) as char
  }

  /** `int(c)` on a one-character string: its digit value, or None where Python raises. */
  function DecimalValue(c: char): (v: Option<int>)
    ensures v.Some? <==> '0' <= c <= '9'
    ensures v.Some? ==> 0 <= v.value <= 9 && DigitChar(v.value) == c
  {
    if '0' <= c <= '9' then Some(c as int - '0' as int) else None
  }

  /** Writing a digit and reading it back gives the digit. */
  lemma DecimalValueOfDigit(d: int)
    requires 0 <= d <= 9
    ensures DecimalValue(DigitChar(d)) == Some(d)
  {
  }

  /** A token whose last character `int()` accepts. */
  predicate EndsInDigit(token: string)
  {
    |token| > 0 && '0' <= token[|token| - 1] <= '9'
  }
}
