/**
 * The PHP string routines the collector relies on: `stripslashes`, the
 * single-quoted literal `var_export` prints for a string, how PHP reads such
 * a literal back, and the decimal text of an integer.
 */
module PhpStrings {

  import opened Wrappers

  predicate IsDigit(c: char) {
    '0' <= c <= '9'
  }

  /**
   * `stripslashes`: a backslash is dropped and the character after it kept
   * as it is, except that `\0` stands for the NUL character; a backslash at
   * the very end is dropped.
   */
  function StripSlashes(s: string): (r: string)
    ensures |r| <= |s|
    ensures '\\' !in s ==> r == s
    decreases |s|
  {
    if s == [] then []
    else if s[0] != '\\' then [s[0]] + StripSlashes(s[1..])
    else if |s| == 1 then []
    else [if s[1] == '0' then '\0' else s[1]] + StripSlashes(s[2..])
  }

  /** An escaped character other than `0` stands for itself: `\'`, `\"` and `\\` lose their backslash. */
  lemma StripSlashesEscape(c: char, rest: string)
    requires c != '0'
    ensures StripSlashes(['\\', c] + rest) == [c] + StripSlashes(rest)
  {
    var s := ['\\', c] + rest;
    assert s[0] == '\\' && s[1] == c && s[2..] == rest;
  }

  /**
   * `addslashes`, the documented inverse of `stripslashes`: a backslash is
   * put before every `'`, `"` and `\`, and NUL is written `\0`.
   */
  function AddSlashes(s: string): string
    decreases |s|
  {
    if s == [] then []
    else
      var c := s[0];
      (if c == '\0' then ['\\', '0']
       else if c == '\'' || c == '"' || c == '\\' then ['\\', c]
       else [c])
      + AddSlashes(s[1..])
  }

  lemma {:induction false} StripSlashesUndoesAddSlashes(s: string)
    ensures StripSlashes(AddSlashes(s)) == s
    decreases |s|
  {
    if s != [] {
      StripSlashesUndoesAddSlashes(s[1..]);
      var c := s[0];
      var head := if c == '\0' then ['\\', '0']
                  else if c == '\'' || c == '"' || c == '\\' then ['\\', c]
                  else [c];
      assert AddSlashes(s) == head + AddSlashes(s[1..]);
      assert (head + AddSlashes(s[1..]))[|head|..] == AddSlashes(s[1..]);
      if |head| == 2 {
        assert StripSlashes(AddSlashes(s)) == [c] + StripSlashes(AddSlashes(s[1..]));
      } else {
        assert StripSlashes(AddSlashes(s)) == [c] + StripSlashes(AddSlashes(s[1..]));
      }
    }
  }

  /** The body of a single-quoted literal: `\` and `'` get a backslash. */
  function EscapeSingleQuoted(s: string): (r: string)
    ensures |r| >= |s|
    ensures '\\' !in s && '\'' !in s ==> r == s
    decreases |s|
  {
    if s == [] then [] else EscapeChar(s[0]) + EscapeSingleQuoted(s[1..])
  }

  /** One character of a single-quoted literal's body. */
  function EscapeChar(c: char): (r: string)
    ensures 1 <= |r| <= 2 && r[|r| - 1] == c
    ensures |r| == 2 <==> c == '\\' || c == '\''
    ensures |r| == 2 ==> r[0] == '\\'
  {
    if c == '\\' || c == '\'' then ['\\', c] else [c]
  }

  /** `var_export($s, true)` for a string: the escaped text between `'` quotes. */
  function Export(s: string): (r: string)
    ensures |r| >= 2 && r[0] == '\'' && r[|r| - 1] == '\''
  {
    "'" + EscapeSingleQuoted(s) + "'"
  }

  /**
   * How PHP reads the rest of a single-quoted literal whose opening quote
   * has been consumed: `\\` is a backslash, `\'` a quote, a backslash before
   * any other character is kept together with it, and the first unescaped
   * `'` closes the literal. Yields the value and the text after the closing
   * quote, or None when the literal is never closed.
   */
  function ParseQuotedBody(s: string): (r: Option<(string, string)>)
    ensures r.Some? ==> |r.value.1| < |s|
    decreases |s|
  {
    if s == [] then None
    else if s[0] == '\'' then Some(([], s[1..]))
    else if s[0] == '\\' then
      if |s| == 1 then None
      else
        var c := s[1];
        var unit := if c == '\\' || c == '\'' then [c] else ['\\', c];
        match ParseQuotedBody(s[2..])
        case None => None
        case Some((v, rest)) => Some((unit + v, rest))
    else
      match ParseQuotedBody(s[1..])
      case None => None
      case Some((v, rest)) => Some(([s[0]] + v, rest))
  }

  /** Reads one single-quoted PHP literal at the start of `s`. */
  function ParseLiteral(s: string): (r: Option<(string, string)>)
    ensures r.Some? ==> |r.value.1| + 2 <= |s|
  {
    if s != [] && s[0] == '\'' then ParseQuotedBody(s[1..]) else None
  }

  /** A body starting with an escaped backslash or quote reads that character. */
  lemma ParseEscapedUnit(c: char, tail: string)
    requires c == '\\' || c == '\''
    ensures ParseQuotedBody(['\\', c] + tail) ==
            match ParseQuotedBody(tail)
            case None => None
            case Some((v, rest)) => Some(([c] + v, rest))
  {
    var x := ['\\', c] + tail;
    assert x[0] == '\\' && x[1] == c && x[2..] == tail;
  }

  /** A body starting with an ordinary character reads that character. */
  lemma ParsePlainUnit(c: char, tail: string)
    requires c != '\\' && c != '\''
    ensures ParseQuotedBody([c] + tail) ==
            match ParseQuotedBody(tail)
            case None => None
            case Some((v, rest)) => Some(([c] + v, rest))
  {
    var x := [c] + tail;
    assert x[0] == c && x[1..] == tail;
  }

  lemma {:induction false} ParseEscapedBody(s: string, rest: string)
    ensures ParseQuotedBody(EscapeSingleQuoted(s) + "'" + rest) == Some((s, rest))
    decreases |s|
  {
    if s == [] {
      var x := EscapeSingleQuoted(s) + "'" + rest;
      assert x == ['\''] + rest;
    } else {
      ParseEscapedBody(s[1..], rest);
      var tail := EscapeSingleQuoted(s[1..]) + "'" + rest;
      assert EscapeSingleQuoted(s) == EscapeChar(s[0]) + EscapeSingleQuoted(s[1..]);
      Regroup(EscapeChar(s[0]), EscapeSingleQuoted(s[1..]), "'", rest);
      if s[0] == '\\' || s[0] == '\'' {
        ParseEscapedUnit(s[0], tail);
      } else {
        ParsePlainUnit(s[0], tail);
      }
      assert [s[0]] + s[1..] == s;
    }
  }

  lemma Regroup(a: string, b: string, c: string, d: string)
    ensures a + b + c + d == a + (b + c + d)
  {
  }

  /**
   * The literal `var_export` prints reads back as exactly the original
   * string, whatever follows it.
   */
  lemma ExportRoundTrip(s: string, rest: string)
    ensures ParseLiteral(Export(s) + rest) == Some((s, rest))
  {
    ParseEscapedBody(s, rest);
    assert (Export(s) + rest)[1..] == EscapeSingleQuoted(s) + "'" + rest;
  }

  /** The decimal digits PHP prints for a non-negative integer. */
  function IntToString(n: nat): (r: string)
    ensures |r| >= 1
    ensures forall i :: 0 <= i < |r| ==> IsDigit(r[i])
    ensures |r| > 1 ==> r[0] != '0'
  {
    if n < 10 then [DigitChar(n)]
    else IntToString(n / 10) + [DigitChar(n % 10)]
  }

  function DigitChar(d: nat): (c: char)
    requires d < 10
    ensures IsDigit(c)
  {
    ['0', '1', '2', '3', '4', '5', '6', '7', '8', '9'][d]
  }

  function DigitValue(c: char): (d: nat)
    requires IsDigit(c)
    ensures d < 10 && DigitChar(d) == c
  {
    c as int - '0' as int
  }

  /** The value of a string of decimal digits. */
  function ParseDecimal(s: string): nat
    requires forall i :: 0 <= i < |s| ==> IsDigit(s[i])
    decreases |s|
  {
    if s == [] then 0
    else ParseDecimal(s[..|s| - 1]) * 10 + DigitValue(s[|s| - 1])
  }

  lemma {:induction false} DecimalRoundTrip(n: nat)
    ensures ParseDecimal(IntToString(n)) == n
  {
    var r := IntToString(n);
    if n >= 10 {
      var q, d := n / 10, n % 10;
      assert n == q * 10 + d;
      DecimalRoundTrip(q);
      assert r == IntToString(q) + [DigitChar(d)];
      assert r[..|r| - 1] == IntToString(q);
      assert DigitValue(r[|r| - 1]) == d;
    } else {
      assert r == [DigitChar(n)];
      assert r[..0] == [];
    }
  }
}
