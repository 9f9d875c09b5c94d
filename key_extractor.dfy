/**
 * The extraction pattern `trans\(['"]{1}([\w\s_\-\.!?:,\\'"]+)['"]{1}\)/i`
 * as `preg_match_all` applies it, written as a left-to-right scanner.
 *
 * File content is a sequence of characters, each standing for one byte, so
 * a position in the sequence is a byte offset. `\w` and `\s` are taken in
 * their ASCII sense.
 */
module KeyExtractor {

  import opened Wrappers

  /** `\w`: an ASCII letter, a digit or `_`. */
  predicate IsWordChar(c: char) {
    ('a' <= c <= 'z') || ('A' <= c <= 'Z') || ('0' <= c <= '9') || c == '_'
  }

  /** `\s`: space, tab, line feed, vertical tab, form feed, carriage return. */
  predicate IsSpaceChar(c: char) {
    c == ' ' || c == '\t' || c == '\n' || c == '\U{B}' || c == '\U{C}' || c == '\r'
  }

  predicate IsQuote(c: char) {
    c == '\'' || c == '"'
  }

  /** The character class of the captured group; it holds both quotes but not `)`. */
  predicate IsKeyChar(c: char) {
    || IsWordChar(c) || IsSpaceChar(c)
    || c == '_' || c == '-' || c == '.' || c == '!' || c == '?' || c == ':' || c == ','
    || c == '\\' || c == '\'' || c == '"'
  }

  /** ASCII lower-casing, which is all the `/i` flag changes for `trans`. */
  function Lower(c: char): char {
    if 'A' <= c <= 'Z' then (c as int - 'A' as int + 'a' as int) as char else c
  }

  /** `trans(` in any letter case, then an opening quote, at position `p`. */
  predicate OpensCall(s: string, p: nat) {
    && p + 7 <= |s|
    && Lower(s[p]) == 't' && Lower(s[p + 1]) == 'r' && Lower(s[p + 2]) == 'a'
    && Lower(s[p + 3]) == 'n' && Lower(s[p + 4]) == 's'
    && s[p + 5] == '(' && IsQuote(s[p + 6])
  }

  /** The length of the longest run of class characters starting at `i`. */
  function RunLength(s: string, i: nat): (n: nat)
    requires i <= |s|
    ensures i + n <= |s|
    ensures forall j :: i <= j < i + n ==> IsKeyChar(s[j])
    ensures i + n == |s| || !IsKeyChar(s[i + n])
    decreases |s| - i
  {
    if i == |s| || !IsKeyChar(s[i]) then 0 else 1 + RunLength(s, i + 1)
  }

  /** A captured group: its text and the byte offset where it starts. */
  datatype Capture = Capture(text: string, offset: nat)

  /** Where the whole match of a capture ends: past the closing quote and `)`. */
  function End(c: Capture): nat {
    c.offset + |c.text| + 2
  }

  /**
   * The pattern tried at position `p`. The greedy group takes the maximal
   * run R of class characters; since `)` is not in the class, the only way
   * to finish is to give back R's last character as the closing quote.
   */
  function MatchAt(s: string, p: nat): (r: Option<Capture>)
    ensures r.Some? ==> r.value.offset == p + 7 && End(r.value) <= |s|
  {
    if !OpensCall(s, p) then None
    else
      var n := RunLength(s, p + 7);
      var close := p + 7 + n;
      if n >= 2 && IsQuote(s[close - 1]) && close < |s| && s[close] == ')'
      then Some(Capture(s[p + 7..close - 1], p + 7))
      else None
  }

  /**
   * The pattern's meaning at position `p`, with a group of `k` characters:
   * `trans(`, a quote, `k >= 1` class characters, a quote, `)`.
   */
  ghost predicate PatternMatchesAt(s: string, p: nat, k: nat) {
    && OpensCall(s, p)
    && k >= 1
    && p + 9 + k <= |s|
    && (forall j :: p + 7 <= j < p + 7 + k ==> IsKeyChar(s[j]))
    && IsQuote(s[p + 7 + k])
    && s[p + 8 + k] == ')'
  }

  /**
   * The scanner finds a match at `p` exactly when the pattern can match
   * there, the group length is then unique, and the capture is that group
   * with its offset.
   */
  lemma MatchAtIsPattern(s: string, p: nat, k: nat)
    ensures PatternMatchesAt(s, p, k) <==>
              MatchAt(s, p).Some? && |MatchAt(s, p).value.text| == k
    ensures MatchAt(s, p).Some? ==>
              PatternMatchesAt(s, p, |MatchAt(s, p).value.text|) &&
              MatchAt(s, p).value.text == s[p + 7..p + 7 + |MatchAt(s, p).value.text|]
  {
    if PatternMatchesAt(s, p, k) {
      MatchAtComplete(s, p, k);
    }
    if MatchAt(s, p).Some? {
      MatchAtSound(s, p, MatchAt(s, p).value);
    }
  }

  /** Whenever the pattern can match at `p`, the scanner finds that match. */
  lemma MatchAtComplete(s: string, p: nat, k: nat)
    requires PatternMatchesAt(s, p, k)
    ensures MatchAt(s, p) == Some(Capture(s[p + 7..p + 7 + k], p + 7))
  {
    RunLengthExact(s, p + 7, k + 1);
  }

  /** Every match the scanner reports is one the pattern allows. */
  lemma MatchAtSound(s: string, p: nat, c: Capture)
    requires MatchAt(s, p) == Some(c)
    ensures PatternMatchesAt(s, p, |c.text|) && c.text == s[p + 7..p + 7 + |c.text|]
  {
    var n := RunLength(s, p + 7);
    assert c.text == s[p + 7..p + 6 + n] && |c.text| == n - 1;
    assert IsQuote(s[p + 6 + n]) && s[p + 7 + n] == ')';
  }

  /** A run of `m` class characters ended by a non-class character has length `m`. */
  lemma RunLengthExact(s: string, i: nat, m: nat)
    requires i + m <= |s|
    requires forall j :: i <= j < i + m ==> IsKeyChar(s[j])
    requires i + m == |s| || !IsKeyChar(s[i + m])
    ensures RunLength(s, i) == m
  {
  }

  /** `c` is what the pattern captures when tried at the start of its match. */
  ghost predicate IsMatch(s: string, c: Capture) {
    c.offset >= 7 && MatchAt(s, c.offset - 7) == Some(c)
  }

  /** No match starts anywhere in `[lo, hi)`. */
  ghost predicate NoMatchIn(s: string, lo: nat, hi: nat) {
    forall p :: lo <= p < hi ==> MatchAt(s, p).None?
  }

  /** `preg_match_all` from position `from`: leftmost matches, resuming after each one. */
  function Scan(s: string, from: nat): seq<Capture>
    requires from <= |s|
    decreases |s| - from
  {
    if from == |s| then []
    else
      match MatchAt(s, from)
      case None => Scan(s, from + 1)
      case Some(c) => [c] + Scan(s, End(c))
  }

  /** All captures of the pattern in the content of one file. */
  function Extract(s: string): seq<Capture> {
    Scan(s, 0)
  }

  /**
   * What a left-to-right, non-overlapping matcher reports: every element is
   * a match at its own start, each starts at or after the end of the one
   * before, and no match starts in any gap the scan passed over.
   */
  ghost predicate LeftmostMatches(s: string, from: nat, r: seq<Capture>)
    decreases |r|
  {
    if r == [] then NoMatchIn(s, from, |s| + 1)
    else
      && from + 7 <= r[0].offset
      && IsMatch(s, r[0])
      && NoMatchIn(s, from, r[0].offset - 7)
      && LeftmostMatches(s, End(r[0]), r[1..])
  }

  /** A position without a match may join the gap before the first match. */
  lemma ExtendGap(s: string, from: nat, r: seq<Capture>)
    requires MatchAt(s, from).None?
    requires LeftmostMatches(s, from + 1, r)
    ensures LeftmostMatches(s, from, r)
  {
    if r == [] {
      assert NoMatchIn(s, from, |s| + 1);
    } else {
      assert NoMatchIn(s, from, r[0].offset - 7);
    }
  }

  lemma {:induction false} ScanIsLeftmost(s: string, from: nat)
    requires from <= |s|
    ensures LeftmostMatches(s, from, Scan(s, from))
    decreases |s| - from
  {
    if from == |s| {
      assert NoMatchIn(s, from, |s| + 1);
    } else {
      match MatchAt(s, from)
      case None =>
        ScanIsLeftmost(s, from + 1);
        ExtendGap(s, from, Scan(s, from + 1));
      case Some(c) =>
        ScanIsLeftmost(s, End(c));
        var r := [c] + Scan(s, End(c));
        assert c.offset - 7 == from;
        assert IsMatch(s, c);
        assert r[1..] == Scan(s, End(c));
        assert NoMatchIn(s, from, from);
    }
  }

  /** Only one sequence of captures is leftmost and non-overlapping. */
  lemma {:induction false} LeftmostMatchesUnique(s: string, from: nat, r: seq<Capture>)
    requires from <= |s|
    requires LeftmostMatches(s, from, r)
    ensures r == Scan(s, from)
    decreases |s| - from
  {
    if r == [] {
      if from < |s| {
        assert MatchAt(s, from).None?;
        LeftmostMatchesUnique(s, from + 1, r);
      }
    } else {
      var p := r[0].offset - 7;
      if from < p {
        assert MatchAt(s, from).None?;
        LeftmostMatchesUnique(s, from + 1, r);
      } else {
        assert p == from;
        LeftmostMatchesUnique(s, End(r[0]), r[1..]);
      }
    }
  }

  /** A file yields no captures exactly when the pattern matches nowhere in it. */
  lemma ExtractEmptyIffNoMatch(s: string)
    ensures Extract(s) == [] <==> NoMatchIn(s, 0, |s| + 1)
  {
    ScanIsLeftmost(s, 0);
    if NoMatchIn(s, 0, |s| + 1) {
      LeftmostMatchesUnique(s, 0, []);
    }
  }

  /**
   * Every reported capture is a match at its own start, the matches come
   * left to right, and each starts after the previous one has ended.
   */
  lemma {:induction false} LeftmostInOrder(s: string, from: nat, r: seq<Capture>)
    requires LeftmostMatches(s, from, r)
    ensures forall i :: 0 <= i < |r| ==> from + 7 <= r[i].offset && IsMatch(s, r[i])
    ensures forall i, j :: 0 <= i < j < |r| ==> End(r[i]) + 7 <= r[j].offset
    decreases |r|
  {
    if r != [] {
      var tail := r[1..];
      LeftmostInOrder(s, End(r[0]), tail);
      assert forall i :: 1 <= i < |r| ==> r[i] == tail[i - 1];
    }
  }

  lemma ExtractInOrder(s: string)
    ensures forall i :: 0 <= i < |Extract(s)| ==> IsMatch(s, Extract(s)[i])
    ensures forall i, j :: 0 <= i < j < |Extract(s)| ==>
              End(Extract(s)[i]) + 7 <= Extract(s)[j].offset
  {
    ScanIsLeftmost(s, 0);
    LeftmostInOrder(s, 0, Extract(s));
  }

  /** A match spanning the whole content is its only capture. */
  lemma WholeContentMatch(s: string, c: Capture)
    requires MatchAt(s, 0) == Some(c) && End(c) == |s|
    ensures Extract(s) == [c]
  {
    assert Scan(s, 0) == [c] + Scan(s, |s|);
  }

  /** The `/i` flag: the call may be written in capitals. */
  lemma UpperCaseCall(s: string)
    requires s == "TRANS('x')"
    ensures Extract(s) == [Capture("x", 7)]
  {
    var c := Capture("x", 7);
    assert PatternMatchesAt(s, 0, 1);
    MatchAtComplete(s, 0, 1);
    assert s[7..8] == "x";
    WholeContentMatch(s, c);
  }

  /** An empty literal has no group to capture. */
  lemma EmptyLiteralIgnored(s: string)
    requires s == "trans('')"
    ensures Extract(s) == []
  {
    assert s[7] == '\'' && s[8] == ')';
    RunLengthExact(s, 7, 1);
    assert MatchAt(s, 0).None?;
    assert !OpensCall(s, 1) && !OpensCall(s, 2);
    assert NoMatchIn(s, 0, |s| + 1);
    ExtractEmptyIffNoMatch(s);
  }

  /** A key holding a character outside the class, here `/`, is not collected at all. */
  lemma SlashKeyIgnored(s: string)
    requires s == "trans('a/b')"
    ensures Extract(s) == []
  {
    assert s[7] == 'a' && s[8] == '/';
    RunLengthExact(s, 7, 1);
    assert MatchAt(s, 0).None?;
    assert !OpensCall(s, 1) && !OpensCall(s, 2) && !OpensCall(s, 3);
    assert !OpensCall(s, 4) && !OpensCall(s, 5);
    assert NoMatchIn(s, 0, |s| + 1);
    ExtractEmptyIffNoMatch(s);
  }

  /** The pattern has no word boundary: any name ending in `trans` is a call. */
  lemma PrefixedNameMatches(s: string)
    requires s == "mytrans('x')"
    ensures Extract(s) == [Capture("x", 9)]
  {
    var c := Capture("x", 9);
    assert PatternMatchesAt(s, 2, 1);
    MatchAtComplete(s, 2, 1);
    assert s[9..10] == "x";
    assert !OpensCall(s, 0) && !OpensCall(s, 1);
    assert Scan(s, 2) == [c] + Scan(s, |s|);
    assert Scan(s, 0) == Scan(s, 1) == Scan(s, 2);
  }

  /**
   * Quotes and commas belong to the class, so a call with two literal
   * arguments is read as one key spanning both.
   */
  lemma TwoArgumentsReadAsOneKey(s: string)
    requires s == "trans('a', 'b')"
    ensures Extract(s) == [Capture("a', 'b", 7)]
  {
    var c := Capture("a', 'b", 7);
    assert PatternMatchesAt(s, 0, 6);
    MatchAtComplete(s, 0, 6);
    assert s[7..13] == c.text;
    WholeContentMatch(s, c);
  }

  /**
   * A call with one literal of class characters, opened and closed by any
   * quotes, yields that literal's text as the first capture, at offset 7.
   */
  lemma SingleLiteralCaptured(q1: char, key: string, q2: char, rest: string)
    requires IsQuote(q1) && IsQuote(q2)
    requires |key| >= 1 && forall i :: 0 <= i < |key| ==> IsKeyChar(key[i])
    ensures var s := "trans(" + [q1] + key + [q2] + ")" + rest;
            Extract(s) == [Capture(key, 7)] + Scan(s, End(Capture(key, 7)))
  {
    var s := "trans(" + [q1] + key + [q2] + ")" + rest;
    var k := |key|;
    assert s[..7] == "trans(" + [q1];
    assert OpensCall(s, 0) by {
      assert s[0] == 't' && s[1] == 'r' && s[2] == 'a' && s[3] == 'n' && s[4] == 's';
      assert s[5] == '(' && s[6] == q1;
    }
    assert s[7..7 + k] == key;
    assert forall j :: 7 <= j < 7 + k ==> s[j] == key[j - 7];
    assert s[7 + k] == q2 && s[8 + k] == ')';
    assert PatternMatchesAt(s, 0, k);
    MatchAtComplete(s, 0, k);
  }
}
