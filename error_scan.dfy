/**
 * The recent-error filter of the Apache error-log check: which lines of
 * the log count as errors logged at or after the cutoff.
 */
module ErrorScan {
  import opened Wrappers
  import opened LogText
  import opened Timestamps
  import opened Strptime
  import opened Filtering

  /** The severity tag searched for, in lower case. */
  const Marker := "[error]"

  /** `'[error]' in line.lower()`. */
  predicate IsCandidate(line: string) {
    Contains(Lower(line), Marker)
  }

  // ---------------------------------------------------------------------
  // The timestamp prefix: `line.split(']')[0].strip('[')`.

  /** `s.split(c)[0]`: the longest prefix of `s` without `c`. */
  function BeforeFirst(s: string, c: char): (r: string)
    ensures |r| <= |s| && r == s[..|r|]
    ensures c !in r
    ensures |r| < |s| ==> s[|r|] == c
  {
    if s == [] || s[0] == c then []
    else
      var r := BeforeFirst(s[1..], c);
      assert [s[0]] + r == s[..|r| + 1];
      [s[0]] + r
  }

  function Repeat(c: char, n: nat): (r: string)
    ensures |r| == n && forall i :: 0 <= i < n ==> r[i] == c
  {
    if n == 0 then [] else [c] + Repeat(c, n - 1)
  }

  /** `s.lstrip(c)`. */
  function TrimStart(s: string, c: char): string {
    if s != [] && s[0] == c then TrimStart(s[1..], c) else s
  }

  /** `s.rstrip(c)`. */
  function TrimEnd(s: string, c: char): string {
    if s != [] && s[|s| - 1] == c then TrimEnd(s[..|s| - 1], c) else s
  }

  /** `s.strip(c)`: every `c` removed from both ends. */
  function Strip(s: string, c: char): string {
    TrimEnd(TrimStart(s, c), c)
  }

  /** The string handed to `strptime`. */
  function ExtractPrefix(line: string): string {
    Strip(BeforeFirst(line, ']'), '[')
  }

  /** No `c` at either end, so `Strip` leaves it alone. */
  predicate Unpadded(s: string, c: char) {
    s == [] || (s[0] != c && s[|s| - 1] != c)
  }

  lemma {:induction false} TrimStartSpec(s: string, c: char)
    ensures |TrimStart(s, c)| <= |s|
    ensures s == Repeat(c, |s| - |TrimStart(s, c)|) + TrimStart(s, c)
    ensures TrimStart(s, c) == [] || TrimStart(s, c)[0] != c
    decreases |s|
  {
    if s != [] && s[0] == c {
      var t := s[1..];
      TrimStartSpec(t, c);
      TrimStartStep(s, t, TrimStart(t, c), c);
    } else {
      assert s == Repeat(c, 0) + s;
    }
  }

  /** One `c` more at the start of `t` is one more in the run `lstrip` drops. */
  lemma TrimStartStep(s: string, t: string, r: string, c: char)
    requires s != [] && s[0] == c && t == s[1..]
    requires |r| <= |t| && t == Repeat(c, |t| - |r|) + r
    ensures s == Repeat(c, |s| - |r|) + r
  {
    var k := |t| - |r|;
    assert Repeat(c, k + 1) == [c] + Repeat(c, k);
    assert s == [c] + t;
    assert [c] + (Repeat(c, k) + r) == ([c] + Repeat(c, k)) + r;
  }

  lemma {:induction false} TrimEndSpec(s: string, c: char)
    ensures |TrimEnd(s, c)| <= |s|
    ensures s == TrimEnd(s, c) + Repeat(c, |s| - |TrimEnd(s, c)|)
    ensures TrimEnd(s, c) == [] || TrimEnd(s, c)[|TrimEnd(s, c)| - 1] != c
    decreases |s|
  {
    if s != [] && s[|s| - 1] == c {
      var t := s[..|s| - 1];
      TrimEndSpec(t, c);
      TrimEndStep(s, t, TrimEnd(t, c), c);
    } else {
      assert s == s + Repeat(c, 0);
    }
  }

  /** One `c` more at the end of `t` is one more in the run `rstrip` drops. */
  lemma TrimEndStep(s: string, t: string, r: string, c: char)
    requires s != [] && s[|s| - 1] == c && t == s[..|s| - 1]
    requires |r| <= |t| && t == r + Repeat(c, |t| - |r|)
    ensures s == r + Repeat(c, |s| - |r|)
  {
    var k := |t| - |r|;
    RepeatAdd(c, k, 1);
    assert Repeat(c, 1) == [c];
    assert s == t + [c];
    assert t + [c] == r + (Repeat(c, k) + [c]);
  }

  lemma {:induction false} TrimEndKeepsStart(s: string, c: char)
    requires s == [] || s[0] != c
    ensures TrimEnd(s, c) == [] || TrimEnd(s, c)[0] == s[0]
    decreases |s|
  {
    if s != [] && s[|s| - 1] == c {
      TrimEndKeepsStart(s[..|s| - 1], c);
    }
  }

  /**
   * `Strip` removes a run of `c` from each end and nothing else: its result,
   * padded back on both sides, is the input, and has no `c` at either end.
   */
  lemma StripSpec(s: string, c: char)
    ensures Unpadded(Strip(s, c), c)
    ensures exists a: nat, b: nat :: s == Repeat(c, a) + Strip(s, c) + Repeat(c, b)
  {
    var t := TrimStart(s, c);
    var r := TrimEnd(t, c);
    TrimStartSpec(s, c);
    TrimEndSpec(t, c);
    TrimEndKeepsStart(t, c);
    var a, b := |s| - |t|, |t| - |r|;
    assert s == Repeat(c, a) + (r + Repeat(c, b));
    assert Repeat(c, a) + (r + Repeat(c, b)) == Repeat(c, a) + r + Repeat(c, b);
  }

  lemma {:induction false} TrimStartPadded(a: nat, r: string, c: char)
    requires r == [] || r[0] != c
    ensures TrimStart(Repeat(c, a) + r, c) == r
    decreases a
  {
    if a > 0 {
      assert (Repeat(c, a) + r)[1..] == Repeat(c, a - 1) + r;
      TrimStartPadded(a - 1, r, c);
    }
  }

  lemma {:induction false} TrimEndPadded(r: string, b: nat, c: char)
    requires r == [] || r[|r| - 1] != c
    ensures TrimEnd(r + Repeat(c, b), c) == r
    decreases b
  {
    if b > 0 {
      assert Repeat(c, b) == Repeat(c, b - 1) + [c];
      assert (r + Repeat(c, b))[..|r| + b - 1] == r + Repeat(c, b - 1);
      TrimEndPadded(r, b - 1, c);
    }
  }

  /** The converse of `StripSpec`: padding an unpadded string with `c` and stripping gives it back. */
  lemma StripPadded(a: nat, r: string, b: nat, c: char)
    requires Unpadded(r, c)
    ensures Strip(Repeat(c, a) + r + Repeat(c, b), c) == r
  {
    if r == [] {
      StripAllPadding(a, b, c);
    } else {
      var x := Repeat(c, a) + r + Repeat(c, b);
      var t := r + Repeat(c, b);
      assert x == Repeat(c, a) + t;
      assert t[0] == r[0];
      TrimStartPadded(a, t, c);
      TrimEndPadded(r, b, c);
    }
  }

  lemma StripAllPadding(a: nat, b: nat, c: char)
    ensures Strip(Repeat(c, a) + [] + Repeat(c, b), c) == []
  {
    RepeatAdd(c, a, b);
    assert Repeat(c, a) + [] == Repeat(c, a);
    TrimStartPadded(a + b, [], c);
    assert Repeat(c, a + b) + [] == Repeat(c, a + b);
  }

  lemma {:induction false} RepeatAdd(c: char, a: nat, b: nat)
    ensures Repeat(c, a) + Repeat(c, b) == Repeat(c, a + b)
    decreases a
  {
    if a > 0 {
      RepeatAdd(c, a - 1, b);
      assert Repeat(c, a) + Repeat(c, b) == [c] + (Repeat(c, a - 1) + Repeat(c, b));
    }
  }

  /**
   * The timestamp string of a line: the text before its first `]`, once
   * the `[` at both its ends are removed. It holds no `]`, and the text
   * before the first `]` is it padded with `[` on both sides.
   */
  lemma ExtractPrefixSpec(line: string)
    ensures ']' !in ExtractPrefix(line)
    ensures Unpadded(ExtractPrefix(line), '[')
    ensures exists a: nat, b: nat :: BeforeFirst(line, ']') == Repeat('[', a) + ExtractPrefix(line) + Repeat('[', b)
  {
    var head := BeforeFirst(line, ']');
    StripSpec(head, '[');
    var a: nat, b: nat :| head == Repeat('[', a) + Strip(head, '[') + Repeat('[', b);
    assert Strip(head, '[') == head[a..|head| - b];
  }

  /** A line "[<ts>] ..." (any number of `[` around `ts`) yields exactly `ts`. */
  lemma ExtractPrefixOfBracketed(a: nat, ts: string, b: nat, rest: string)
    requires ']' !in ts && Unpadded(ts, '[')
    requires rest == [] || rest[0] == ']'
    ensures ExtractPrefix(Repeat('[', a) + ts + Repeat('[', b) + rest) == ts
  {
    var head := Repeat('[', a) + ts + Repeat('[', b);
    var line := head + rest;
    BeforeFirstOf(head, rest);
    StripPadded(a, ts, b, '[');
  }

  lemma BeforeFirstOf(head: string, rest: string)
    requires ']' !in head
    requires rest == [] || rest[0] == ']'
    ensures BeforeFirst(head + rest, ']') == head
  {
    assert (head + rest)[..|head|] == head;
  }

  /** What `strptime` makes of a line's timestamp prefix; `None` where it raises. */
  function LineTime(line: string): Option<Timestamp> {
    ParseTimestamp(ExtractPrefix(line))
  }

  /** The test the loop body makes: a candidate whose time parses and is at or after the cutoff. */
  predicate IsRecentError(line: string, cutoff: Timestamp) {
    && IsCandidate(line)
    && LineTime(line).Some?
    && LessEq(cutoff, LineTime(line).value)
  }

  /** The same test, as the predicate the filter applies. */
  function RecentTest(cutoff: Timestamp): string -> bool {
    line => IsRecentError(line, cutoff)
  }

  // ---------------------------------------------------------------------
  // The filter.

  /** The specification of `errors_recent`: the recent error lines, in input order. */
  function RecentErrors(lines: seq<string>, cutoff: Timestamp): seq<string> {
    Filter(lines, RecentTest(cutoff))
  }

  /**
   * The body of the loop for one line: the marker test on the lower-cased
   * line, then the prefix parsed and compared with the cutoff; a parse
   * failure answers false and the loop moves on to the next line.
   */
  method ExamineLine(line: string, cutoff: Timestamp) returns (recent: bool)
    ensures recent <==> RecentTest(cutoff)(line)
    ensures Valid(cutoff) ==>
      (recent <==> IsCandidate(line) && LineTime(line).Some? && Micros(cutoff) <= Micros(LineTime(line).value))
  {
    recent := false;
    if Contains(Lower(line), Marker) {
      var dateStr := ExtractPrefix(line);
      var logTime := ParseTimestamp(dateStr);
      if logTime.Some? && LessEq(cutoff, logTime.value) {
        recent := true;
      }
    }
    RecentStep(line, cutoff);
    if Valid(cutoff) && LineTime(line).Some? {
      OrderMatchesMicros(cutoff, LineTime(line).value);
    }
  }

  /**
   * The loop of the check: every line of the log examined in order, the
   * recent error lines appended to `errorsRecent`.
   */
  method ScanLog(data: string, cutoff: Timestamp) returns (errorsRecent: seq<string>)
    ensures errorsRecent == RecentErrors(SplitLines(data), cutoff)
  {
    var lines := SplitLines(data);
    errorsRecent := [];
    for i := 0 to |lines|
      invariant errorsRecent == RecentErrors(lines[..i], cutoff)
    {
      var line := lines[i];
      var recent := ExamineLine(line, cutoff);
      if recent {
        errorsRecent := errorsRecent + [line];
      }
      RecentErrorsSnoc(lines, i, cutoff, recent);
    }
    assert lines[..|lines|] == lines;
  }

  /** One more line examined: the recent errors grow by that line exactly when it is one. */
  lemma RecentErrorsSnoc(lines: seq<string>, i: nat, cutoff: Timestamp, recent: bool)
    requires i < |lines|
    requires recent <==> RecentTest(cutoff)(lines[i])
    ensures RecentErrors(lines[..i + 1], cutoff) ==
      RecentErrors(lines[..i], cutoff) + (if recent then [lines[i]] else [])
  {
    assert lines[..i + 1] == lines[..i] + [lines[i]];
    FilterSnoc(lines[..i], lines[i], RecentTest(cutoff));
  }

  /** The loop body's two nested tests make up `IsRecentError`. */
  lemma RecentStep(line: string, cutoff: Timestamp)
    ensures RecentTest(cutoff)(line) <==>
      && Contains(Lower(line), Marker)
      && ParseTimestamp(ExtractPrefix(line)).Some?
      && LessEq(cutoff, ParseTimestamp(ExtractPrefix(line)).value)
  {
  }

  /** `assert not errors_recent`: the check passes exactly when no line is a recent error. */
  method ErrorsInLogs(data: string, cutoff: Timestamp) returns (passed: bool)
    ensures passed <==> forall i :: 0 <= i < |SplitLines(data)| ==> !IsRecentError(SplitLines(data)[i], cutoff)
  {
    var errorsRecent := ScanLog(data, cutoff);
    RecentErrorsEmptyIff(SplitLines(data), cutoff);
    passed := errorsRecent == [];
  }

  // ---------------------------------------------------------------------
  // Properties of the filter.

  /**
   * The result is a subsequence of the log's lines, each unchanged (not
   * lower-cased) and in input order, taken at exactly the positions of the
   * recent error lines.
   */
  lemma RecentErrorsSelects(lines: seq<string>, cutoff: Timestamp)
    ensures Embeds(Kept(lines, RecentTest(cutoff)), RecentErrors(lines, cutoff), lines)
    ensures forall i :: 0 <= i < |lines| ==>
      (i in Kept(lines, RecentTest(cutoff)) <==> IsRecentError(lines[i], cutoff))
  {
    FilterSelects(lines, RecentTest(cutoff));
  }

  /** Every collected line is in the input and is a marked line whose time parses at or after the cutoff. */
  lemma RecentErrorsSound(lines: seq<string>, cutoff: Timestamp, line: string)
    requires line in RecentErrors(lines, cutoff)
    ensures line in lines && IsCandidate(line)
    ensures LineTime(line).Some? && LessEq(cutoff, LineTime(line).value)
  {
    FilterSound(lines, RecentTest(cutoff), line);
  }

  /** A line without the marker, in any case, is never collected, whatever its timestamp. */
  lemma MarkerNecessary(lines: seq<string>, cutoff: Timestamp, line: string)
    requires !IsCandidate(line)
    ensures line !in RecentErrors(lines, cutoff)
  {
    if line in RecentErrors(lines, cutoff) {
      RecentErrorsSound(lines, cutoff, line);
    }
  }

  /** Any spelling of the marker whose lower case is "[error]" makes a line a candidate. */
  lemma MarkerAnyCase(pre: string, marker: string, post: string)
    requires Lower(marker) == Marker
    ensures IsCandidate(pre + marker + post)
  {
    LowerConcat(pre + marker, post);
    LowerConcat(pre, marker);
    OccursInside(Lower(pre), Marker, Lower(post));
  }

  lemma MarkerSpellings()
    ensures Lower("[ERROR]") == Marker && Lower("[Error]") == Marker && Lower("[error]") == Marker
  {
  }

  /** The one-line case of the filter. */
  lemma RecentErrorsSingle(line: string, cutoff: Timestamp)
    ensures RecentErrors([line], cutoff) == if IsRecentError(line, cutoff) then [line] else []
  {
    assert Filter([line], RecentTest(cutoff)) == (if RecentTest(cutoff)(line) then [line] else []) + Filter([], RecentTest(cutoff));
  }

  /**
   * A line whose timestamp does not parse adds nothing, and the lines
   * after it are still examined.
   */
  lemma SkipUnparsable(before: seq<string>, bad: string, after: seq<string>, cutoff: Timestamp)
    requires LineTime(bad).None?
    ensures RecentErrors(before + [bad] + after, cutoff) == RecentErrors(before, cutoff) + RecentErrors(after, cutoff)
  {
    FilterAppend(before + [bad], after, RecentTest(cutoff));
    FilterAppend(before, [bad], RecentTest(cutoff));
    RecentErrorsSingle(bad, cutoff);
  }

  /** The check fails exactly when some line is a marked, parsable, recent one. */
  lemma RecentErrorsEmptyIff(lines: seq<string>, cutoff: Timestamp)
    ensures RecentErrors(lines, cutoff) == [] <==> forall i :: 0 <= i < |lines| ==> !IsRecentError(lines[i], cutoff)
  {
    FilterEmptyIff(lines, RecentTest(cutoff));
  }

  /** Filtering the result again changes nothing. */
  lemma RecentErrorsIdempotent(lines: seq<string>, cutoff: Timestamp)
    ensures RecentErrors(RecentErrors(lines, cutoff), cutoff) == RecentErrors(lines, cutoff)
  {
    FilterIdempotent(lines, RecentTest(cutoff));
  }

  /** A later cutoff collects a subsequence of what an earlier one collects. */
  lemma LaterCutoff(lines: seq<string>, early: Timestamp, late: Timestamp)
    requires LessEq(early, late)
    ensures RecentErrors(lines, late) == Filter(RecentErrors(lines, early), RecentTest(late))
  {
    forall line | RecentTest(late)(line) ensures RecentTest(early)(line) {
      LessEqTransitive(early, late, LineTime(line).value);
    }
    FilterStricter(lines, RecentTest(late), RecentTest(early));
  }

  /**
   * The cutoff is inclusive. For a marked line whose time parses, and a
   * cutoff that is a real datetime: the line is collected exactly when its
   * time is not an earlier instant than the cutoff; so at the cutoff itself
   * it is collected, one microsecond before it is not, one after it is.
   */
  lemma CutoffInclusive(line: string, cutoff: Timestamp)
    requires IsCandidate(line) && LineTime(line).Some? && Valid(cutoff)
    ensures var t := LineTime(line).value;
      RecentErrors([line], cutoff) == (if Micros(cutoff) <= Micros(t) then [line] else [])
    ensures LineTime(line).value == cutoff ==> RecentErrors([line], cutoff) == [line]
    ensures Micros(LineTime(line).value) == Micros(cutoff) - 1 ==> RecentErrors([line], cutoff) == []
    ensures Micros(LineTime(line).value) == Micros(cutoff) + 1 ==> RecentErrors([line], cutoff) == [line]
  {
    OrderMatchesMicros(cutoff, LineTime(line).value);
    RecentErrorsSingle(line, cutoff);
  }

  // ---------------------------------------------------------------------
  // Lines shaped like the example in the comment beside the filter.

  /** A line "[<ts>]..." with no bracket inside `ts` yields what `strptime` makes of `ts`. */
  lemma BracketedLineTime(ts: string, rest: string)
    requires NoBrackets(ts) && |ts| > 0
    requires rest == [] || rest[0] == ']'
    ensures LineTime("[" + ts + rest) == ParseTimestamp(ts)
  {
    assert ts[0] in ts && ts[|ts| - 1] in ts;
    assert "[" + ts + rest == Repeat('[', 1) + ts + Repeat('[', 0) + rest;
    ExtractPrefixOfBracketed(1, ts, 0, rest);
  }

  /** A line "[<text in the format>]..." yields what `strptime` makes of that text. */
  lemma RenderedLineTime(f: Fields, rest: string)
    requires InFormatRanges(f)
    requires rest == [] || rest[0] == ']'
    ensures LineTime("[" + Render(f) + rest) == ParseTimestamp(Render(f))
  {
    RenderNoBrackets(f);
    BracketedLineTime(Render(f), rest);
  }

  /** A line shaped like that example, for an error at `t`: "[<t>] [error] <message>". */
  function ErrorLine(t: Timestamp, message: string): string
    requires Valid(t)
  {
    "[" + Format(t) + "] [error] " + message
  }

  lemma ErrorLineTime(t: Timestamp, message: string)
    requires Valid(t)
    ensures LineTime(ErrorLine(t, message)) == Some(t)
  {
    var ts := Format(t);
    var rest := "] [error] " + message;
    assert ErrorLine(t, message) == "[" + ts + rest;
    RenderedLineTime(Fields(Weekday(t), t.month, t.day, t.hour, t.minute, t.second, t.micro, t.year), rest);
    ParseFormat(t);
  }

  lemma ErrorLineMarked(t: Timestamp, message: string)
    requires Valid(t)
    ensures IsCandidate(ErrorLine(t, message))
  {
    MarkedLine(Format(t), message);
  }

  lemma MarkedLine(ts: string, message: string)
    ensures IsCandidate("[" + ts + "] [error] " + message)
  {
    var pre := "[" + ts + "] ";
    assert "[" + ts + "] [error] " + message == pre + "[error]" + (" " + message);
    MarkerAnyCase(pre, "[error]", " " + message);
  }

  /** Such a line is collected exactly when `t` is at or after the cutoff. */
  lemma ErrorLineCollected(t: Timestamp, message: string, cutoff: Timestamp)
    requires Valid(t)
    ensures RecentErrors([ErrorLine(t, message)], cutoff) == if LessEq(cutoff, t) then [ErrorLine(t, message)] else []
  {
    var line := ErrorLine(t, message);
    ErrorLineTime(t, message);
    ErrorLineMarked(t, message);
    RecentErrorsSingle(line, cutoff);
  }

  /** A stale error line followed by a recent one: only the recent one is collected. */
  lemma StaleThenRecent(t1: Timestamp, m1: string, t2: Timestamp, m2: string, cutoff: Timestamp)
    requires Valid(t1) && Valid(t2)
    requires !LessEq(cutoff, t1) && LessEq(cutoff, t2)
    ensures RecentErrors([ErrorLine(t1, m1), ErrorLine(t2, m2)], cutoff) == [ErrorLine(t2, m2)]
  {
    var l1, l2 := ErrorLine(t1, m1), ErrorLine(t2, m2);
    assert [l1, l2] == [l1] + [l2];
    FilterAppend([l1], [l2], RecentTest(cutoff));
    ErrorLineCollected(t1, m1, cutoff);
    ErrorLineCollected(t2, m2, cutoff);
  }

  /**
   * The opening bracket is not required: "<t>] [error] ..." yields `t` as
   * well, since only the text before the first `]` is read and a `[` at
   * its ends is merely stripped.
   */
  lemma OpenBracketOptional(t: Timestamp, message: string, cutoff: Timestamp)
    requires Valid(t)
    ensures var line := Format(t) + "] [error] " + message;
      RecentErrors([line], cutoff) == if LessEq(cutoff, t) then [line] else []
  {
    var line := Format(t) + "] [error] " + message;
    UnbracketedTime(t, message);
    UnbracketedMarked(Format(t), message);
    RecentErrorsSingle(line, cutoff);
  }

  lemma UnbracketedMarked(ts: string, message: string)
    ensures IsCandidate(ts + "] [error] " + message)
  {
    assert ts + "] [error] " + message == (ts + "] ") + "[error]" + (" " + message);
    MarkerAnyCase(ts + "] ", "[error]", " " + message);
  }

  lemma UnbracketedTime(t: Timestamp, message: string)
    requires Valid(t)
    ensures LineTime(Format(t) + "] [error] " + message) == Some(t)
  {
    var ts, rest := Format(t), "] [error] " + message;
    RenderNoBrackets(Fields(Weekday(t), t.month, t.day, t.hour, t.minute, t.second, t.micro, t.year));
    assert ts[0] in ts && ts[|ts| - 1] in ts;
    assert ts + "] [error] " + message == Repeat('[', 0) + ts + Repeat('[', 0) + rest;
    ExtractPrefixOfBracketed(0, ts, 0, rest);
    ParseFormat(t);
  }

  /** An error written at 12:34:56 on 9 September 2025. */
  const DiskFullAt := Timestamp(2025, 9, 9, 12, 34, 56, 0)

  /**
   * It is collected with a 12:30 cutoff, with a cutoff at that very
   * microsecond, and not with a 12:40 one: written with its true weekday
   * as `ErrorLine` writes it, and as the literal line with "Wed".
   */
  lemma DiskFullScenarios(message: string)
    ensures RecentErrors([ErrorLine(DiskFullAt, message)], Timestamp(2025, 9, 9, 12, 30, 0, 0)) == [ErrorLine(DiskFullAt, message)]
    ensures RecentErrors([ErrorLine(DiskFullAt, message)], DiskFullAt) == [ErrorLine(DiskFullAt, message)]
    ensures RecentErrors([ErrorLine(DiskFullAt, message)], Timestamp(2025, 9, 9, 12, 40, 0, 0)) == []
    ensures RecentErrors([DiskFullLine], Timestamp(2025, 9, 9, 12, 30, 0, 0)) == [DiskFullLine]
    ensures RecentErrors([DiskFullLine], DiskFullAt) == [DiskFullLine]
    ensures RecentErrors([DiskFullLine], Timestamp(2025, 9, 9, 12, 40, 0, 0)) == []
  {
    ErrorLineCollected(DiskFullAt, message, Timestamp(2025, 9, 9, 12, 30, 0, 0));
    ErrorLineCollected(DiskFullAt, message, DiskFullAt);
    ErrorLineCollected(DiskFullAt, message, Timestamp(2025, 9, 9, 12, 40, 0, 0));
    DiskFullLineCollected(Timestamp(2025, 9, 9, 12, 30, 0, 0));
    DiskFullLineCollected(DiskFullAt);
    DiskFullLineCollected(Timestamp(2025, 9, 9, 12, 40, 0, 0));
  }

  /**
   * The scenario line as quoted, "[Wed Sep 09 12:34:56.000000 2025] [error] disk full",
   * with "Wed" although 9 September 2025 is a Tuesday.
   */
  const DiskFullLine := "[" + DiskFullStamp + "] [error] " + "disk full"

  /** The weekday it carries is not checked: it has the time `DiskFullAt` and is collected exactly when that is at or after the cutoff. */
  lemma DiskFullLineCollected(cutoff: Timestamp)
    ensures LineTime(DiskFullLine) == Some(DiskFullAt)
    ensures RecentErrors([DiskFullLine], cutoff) == if LessEq(cutoff, DiskFullAt) then [DiskFullLine] else []
  {
    DiskFullLineTime();
    MarkedLine(DiskFullStamp, "disk full");
    RecentErrorsSingle(DiskFullLine, cutoff);
  }

  const DiskFullStamp := "Wed Sep 09 12:34:56.000000 2025"

  lemma DiskFullLineTime()
    ensures LineTime(DiskFullLine) == Some(DiskFullAt)
  {
    var f := ExampleFields(0);
    DiskFullStampRendered();
    RenderedLineTime(f, "] [error] " + "disk full");
    assert DiskFullLine == "[" + Render(f) + ("] [error] " + "disk full");
    ParseRendered(f);
    assert Valid(TimestampOf(f)) && TimestampOf(f) == DiskFullAt;
  }

  lemma DiskFullStampRendered()
    ensures InFormatRanges(ExampleFields(0)) && Render(ExampleFields(0)) == DiskFullStamp
  {
    ExampleDigits();
    var us := Digits(0, 6);
    ExampleRender(0, us);
    DiskFullStampText(us);
  }

  // Joins the string literals in a step the solver takes quickly.
  lemma DiskFullStampText(us: string)
    requires us == "000000"
    ensures "Wed Sep 09 12:34:56." + us + " 2025" == DiskFullStamp
  {
  }

  const NoBracketsLine := "no brackets here [error] at all"

  /**
   * A line with no timestamp: the text before its first `]` is
   * "no brackets here [error", which does not parse, so the line is never
   * collected although it carries the marker.
   */
  lemma NoBracketsScenario(cutoff: Timestamp)
    ensures IsCandidate(NoBracketsLine)
    ensures ExtractPrefix(NoBracketsLine) == "no brackets here [error"
    ensures LineTime(NoBracketsLine) == None
    ensures RecentErrors([NoBracketsLine], cutoff) == []
  {
    NoBracketsMarked();
    NoBracketsTime();
    RecentErrorsSingle(NoBracketsLine, cutoff);
  }

  lemma NoBracketsMarked()
    ensures IsCandidate(NoBracketsLine)
  {
    NoBracketsText("no brackets here [error");
    MarkerAnyCase("no brackets here ", "[error]", " at all");
  }

  lemma NoBracketsTime()
    ensures ExtractPrefix(NoBracketsLine) == "no brackets here [error"
    ensures LineTime(NoBracketsLine) == None
  {
    var ts := "no brackets here [error";
    NoBracketsText(ts);
    ExtractPrefixOfBracketed(0, ts, 0, "] at all");
    NoWeekdayName(ts);
  }

  lemma NoWeekdayName(ts: string)
    requires ts == "no brackets here [error"
    ensures ParseTimestamp(ts) == None
  {
    assert ts[..3] == "no ";
    assert Lower("no ") == "no ";
    assert "no " !in WeekdayNames;
    UnknownWeekday(ts);
  }

  lemma NoBracketsText(ts: string)
    requires ts == "no brackets here [error"
    ensures NoBracketsLine == Repeat('[', 0) + ts + Repeat('[', 0) + "] at all"
    ensures NoBracketsLine == "no brackets here " + "[error]" + " at all"
    ensures ']' !in ts && Unpadded(ts, '[')
  {
  }
}
