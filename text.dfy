/**
 * The string operations the log filter relies on: `str.splitlines()`,
 * `str.lower()` and the substring test `pattern in text`.
 */
module LogText {

  /** The characters at which Python's `str.splitlines()` ends a line. */
  predicate IsLineBreak(c: char) {
    c == '\n' || c == '\r' || c == '\U{0B}' || c == '\U{0C}' || c == '\U{1C}' || c == '\U{1D}'
    || c == '\U{1E}' || c == '\U{85}' || c == '\U{2028}' || c == '\U{2029}'
  }

  predicate NoLineBreak(s: string) {
    forall i :: 0 <= i < |s| ==> !IsLineBreak(s[i])
  }

  /** Index of the first line-break character of `s`, or `|s|` if there is none. */
  function LineEnd(s: string): (i: nat)
    ensures i <= |s|
    ensures i < |s| ==> IsLineBreak(s[i])
    ensures NoLineBreak(s[..i])
  {
    if s == [] || IsLineBreak(s[0]) then 0
    else
      var j := LineEnd(s[1..]);
      assert s[..j + 1] == [s[0]] + s[1..][..j];
      1 + j
  }

  /** Width of the line break that starts at `s[i]`: "\r\n" counts as one break. */
  function BreakWidth(s: string, i: nat): nat
    requires i < |s|
  {
    if s[i] == '\r' && i + 1 < |s| && s[i + 1] == '\n' then 2 else 1
  }

  /**
   * `str.splitlines()` without `keepends`: the text is cut at every line
   * break, the breaks are dropped, and a break at the very end does not
   * start one more (empty) line.
   */
  function SplitLines(s: string): (lines: seq<string>)
    ensures forall k :: 0 <= k < |lines| ==> NoLineBreak(lines[k])
    ensures s == [] <==> lines == []
    decreases |s|
  {
    if s == [] then []
    else
      var i := LineEnd(s);
      if i == |s| then [s]
      else [s[..i]] + SplitLines(s[i + BreakWidth(s, i)..])
  }

  /** Writes every line followed by "\n": the text a log file holds. */
  function JoinLines(lines: seq<string>): string {
    if lines == [] then [] else lines[0] + "\n" + JoinLines(lines[1..])
  }

  lemma {:induction false} SplitJoinLines(lines: seq<string>)
    requires forall k :: 0 <= k < |lines| ==> NoLineBreak(lines[k])
    ensures SplitLines(JoinLines(lines)) == lines
    decreases |lines|
  {
    if lines != [] {
      var s := JoinLines(lines);
      var l := lines[0];
      assert s == l + ("\n" + JoinLines(lines[1..]));
      LineEndOfLine(l, "\n" + JoinLines(lines[1..]));
      assert LineEnd(s) == |l|;
      assert BreakWidth(s, |l|) == 1;
      assert s[..|l|] == l;
      assert s[|l| + 1..] == JoinLines(lines[1..]);
      SplitJoinLines(lines[1..]);
    }
  }

  /** A last line without a break is one line. */
  lemma SplitLinesLast(l: string)
    requires l != [] && NoLineBreak(l)
    ensures SplitLines(l) == [l]
  {
    assert LineEnd(l) == |l|;
  }

  /**
   * A line ended by one break character is cut there and the break
   * dropped; "\r" followed by "\n" is handled by `SplitLinesCrLf`.
   */
  lemma SplitLinesBreak(l: string, b: char, rest: string)
    requires NoLineBreak(l) && IsLineBreak(b)
    requires b == '\r' ==> rest == [] || rest[0] != '\n'
    ensures SplitLines(l + [b] + rest) == [l] + SplitLines(rest)
  {
    var s := l + [b] + rest;
    assert s == l + ([b] + rest);
    LineEndOfLine(l, [b] + rest);
    assert s[|l|] == b;
    assert BreakWidth(s, |l|) == 1;
    assert s[..|l|] == l && s[|l| + 1..] == rest;
  }

  /** "\r\n" ends a line as one break: no empty line between them. */
  lemma SplitLinesCrLf(l: string, rest: string)
    requires NoLineBreak(l)
    ensures SplitLines(l + "\r\n" + rest) == [l] + SplitLines(rest)
  {
    var s := l + "\r\n" + rest;
    assert s == l + ("\r\n" + rest);
    LineEndOfLine(l, "\r\n" + rest);
    assert s[|l|] == '\r' && s[|l| + 1] == '\n';
    assert BreakWidth(s, |l|) == 2;
    assert s[..|l|] == l && s[|l| + 2..] == rest;
  }

  lemma {:induction false} LineEndOfLine(l: string, rest: string)
    requires NoLineBreak(l)
    requires rest != [] && IsLineBreak(rest[0])
    ensures LineEnd(l + rest) == |l|
    decreases |l|
  {
    var s := l + rest;
    if l == [] {
      assert s[0] == rest[0];
    } else {
      assert s[0] == l[0] && !IsLineBreak(l[0]);
      assert s[1..] == l[1..] + rest;
      LineEndOfLine(l[1..], rest);
      assert LineEnd(s) == 1 + LineEnd(s[1..]);
    }
  }

  /** Python's `str.lower()` on ASCII letters; every other character is kept. */
  function LowerChar(c: char): char {
    if 'A' <= c <= 'Z' then (c - 'A' + 'a') as char else c
  }

  function UpperChar(c: char): char {
    if 'a' <= c <= 'z' then (c - 'a' + 'A') as char else c
  }

  function Lower(s: string): string {
    seq(|s|, i requires 0 <= i < |s| => LowerChar(s[i]))
  }

  function Upper(s: string): string {
    seq(|s|, i requires 0 <= i < |s| => UpperChar(s[i]))
  }

  /** Python's `pat in s`. */
  predicate Contains(s: string, pat: string)
    decreases |s|
  {
    if |s| < |pat| then false
    else s[..|pat|] == pat || Contains(s[1..], pat)
  }

  /** `pat` occurs in `s` starting at offset `i`. */
  predicate OccursAt(s: string, pat: string, i: nat) {
    i + |pat| <= |s| && s[i..i + |pat|] == pat
  }

  /** The recursive test agrees with "`pat` occurs at some offset of `s`", in both directions. */
  lemma {:induction false} ContainsIffOccurs(s: string, pat: string)
    ensures Contains(s, pat) <==> exists i: nat :: OccursAt(s, pat, i)
    decreases |s|
  {
    if |s| < |pat| {
      forall i: nat ensures !OccursAt(s, pat, i) { }
    } else if s[..|pat|] == pat {
      assert OccursAt(s, pat, 0);
    } else {
      ContainsIffOccurs(s[1..], pat);
      if Contains(s, pat) {
        var i: nat :| OccursAt(s[1..], pat, i);
        assert s[1..][i..i + |pat|] == s[i + 1..i + 1 + |pat|];
        assert OccursAt(s, pat, i + 1);
      } else {
        forall i: nat ensures !OccursAt(s, pat, i) {
          if i > 0 && i + |pat| <= |s| {
            assert s[i..i + |pat|] == s[1..][i - 1..i - 1 + |pat|];
            assert !OccursAt(s[1..], pat, i - 1);
          }
        }
      }
    }
  }

  /** `pat` occurs in `pre + pat + post`, whatever surrounds it. */
  lemma OccursInside(pre: string, pat: string, post: string)
    ensures Contains(pre + pat + post, pat)
  {
    var s := pre + pat + post;
    assert OccursAt(s, pat, |pre|);
    ContainsIffOccurs(s, pat);
  }

  /** Lowering distributes over concatenation. */
  lemma LowerConcat(a: string, b: string)
    ensures Lower(a + b) == Lower(a) + Lower(b)
  {
  }

  /** Lowering forgets the original case: upper-casing first changes nothing. */
  lemma LowerUpper(s: string)
    ensures Lower(Upper(s)) == Lower(s)
  {
  }
}
