/**
 * `datetime.strptime(s, '%a %b %d %H:%M:%S.%f %Y')` in the C locale.
 *
 * Python turns the format into a regular expression, matched from the
 * first character with case ignored, and demands that it consume the whole
 * string; the fields are then handed to the `datetime` constructor, whose
 * range checks may still reject them. Every numeric field is a run of
 * digits ended by a non-digit (a space, ':', '.' or the end of the string),
 * so the regex's backtracking has one way to succeed: the whole run is the
 * field. The model reads the runs directly.
 */
module Strptime {
  import opened Wrappers
  import opened LogText
  import opened Timestamps

  /** `%a` and `%b` in the C locale, lower-cased as Python's locale tables hold them. */
  const WeekdayNames: seq<string> := ["mon", "tue", "wed", "thu", "fri", "sat", "sun"]
  const MonthNames: seq<string> :=
    ["jan", "feb", "mar", "apr", "may", "jun", "jul", "aug", "sep", "oct", "nov", "dec"]

  /** `\s` in a str pattern, which is Python's `str.isspace()`. */
  predicate IsSpace(c: char) {
    c == ' ' || '\t' <= c <= '\r' || '\U{1C}' <= c <= '\U{1F}' || c == '\U{85}' || c == '\U{A0}'
    || c == '\U{1680}' || '\U{2000}' <= c <= '\U{200A}' || c == '\U{2028}' || c == '\U{2029}'
    || c == '\U{202F}' || c == '\U{205F}' || c == '\U{3000}'
  }

  predicate IsDigit(c: char) {
    '0' <= c <= '9'
  }

  function Pow10(n: nat): (p: nat)
    ensures p >= 1
  {
    if n == 0 then 1 else 10 * Pow10(n - 1)
  }

  // ---------------------------------------------------------------------
  // The pieces of the regular expression.

  /** Position in `names` of the first entry equal to `word`. */
  function IndexOf(names: seq<string>, word: string): (r: Option<nat>)
    ensures r.Some? ==> r.value < |names| && names[r.value] == word
    ensures r.None? ==> word !in names
  {
    if names == [] then None
    else if names[0] == word then Some(0)
    else match IndexOf(names[1..], word)
      case None => None
      case Some(i) => Some(i + 1)
  }

  /** `%a` or `%b`: three letters naming an entry of `names`, case ignored. */
  function Name(s: string, names: seq<string>): Option<(nat, string)> {
    if |s| < 3 then None
    else match IndexOf(names, Lower(s[..3]))
      case None => None
      case Some(i) => Some((i, s[3..]))
  }

  /** Drops the whitespace at the start of `s`. */
  function DropSpaces(s: string): (rest: string)
    ensures rest == [] || !IsSpace(rest[0])
  {
    if s != [] && IsSpace(s[0]) then DropSpaces(s[1..]) else s
  }

  /** `\s+`: at least one whitespace character; the greedy match takes them all. */
  function Spaces(s: string): Option<string> {
    if s != [] && IsSpace(s[0]) then Some(DropSpaces(s)) else None
  }

  function Literal(s: string, c: char): Option<string> {
    if s != [] && s[0] == c then Some(s[1..]) else None
  }

  /** Number of ASCII digits at the start of `s`. */
  function DigitCount(s: string): (n: nat)
    ensures n <= |s|
  {
    if s != [] && IsDigit(s[0]) then 1 + DigitCount(s[1..]) else 0
  }

  /** Decimal value of a string of digits, most significant first. */
  function DigitsValue(ds: string): nat {
    if ds == [] then 0
    else
      var d := ds[|ds| - 1];
      DigitsValue(ds[..|ds| - 1]) * 10 + (if IsDigit(d) then (d - '0') as nat else 0)
  }

  /** A run of 1 to `maxDigits` digits: its value, its width and what follows it. */
  function Number(s: string, maxDigits: nat): Option<(nat, nat, string)> {
    var n := DigitCount(s);
    if n == 0 || n > maxDigits then None else Some((DigitsValue(s[..n]), n, s[n..]))
  }

  /**
   * `%d` (`3[01]|[12]\d|0[1-9]|[1-9]`), `%H` (`2[0-3]|[0-1]\d|\d`), `%M`
   * (`[0-5]\d|\d`) and `%S` (`6[0-1]|[0-5]\d|\d`) each accept one or two
   * digits whose value lies between `lo` and `hi`.
   */
  function Field(s: string, lo: nat, hi: nat): Option<(nat, string)> {
    match Number(s, 2)
    case None => None
    case Some((v, _, rest)) => if lo <= v <= hi then Some((v, rest)) else None
  }

  /** `%f` (`[0-9]{1,6}`): the digits are padded with zeros on the right to six. */
  function Fraction(s: string): Option<(nat, string)> {
    match Number(s, 6)
    case None => None
    case Some((v, n, rest)) => Some((v * Pow10(6 - n), rest))
  }

  /** `%Y` (`\d\d\d\d`) and the end of the string: "unconverted data remains" otherwise. */
  function YearAtEnd(s: string): Option<nat> {
    match Number(s, 4)
    case None => None
    case Some((v, n, rest)) => if n == 4 && rest == [] then Some(v) else None
  }

  /** What the regex captures; `month` counts from 1. */
  datatype Fields = Fields(weekday: nat, month: nat, day: nat,
                           hour: nat, minute: nat, second: nat, micro: nat, year: nat)

  /** The time and year part of the regex, `%H:%M:%S\.%f\s+%Y`, up to the end of the string. */
  datatype Clock = Clock(hour: nat, minute: nat, second: nat, micro: nat, year: nat)

  function MatchClock(s: string): Option<Clock> {
    var h :- Field(s, 0, 23);
    var s1 :- Literal(h.1, ':');
    var m :- Field(s1, 0, 59);
    var s2 :- Literal(m.1, ':');
    var sec :- Field(s2, 0, 61);
    var fy :- MatchFractionYear(sec.1);
    Some(Clock(h.0, m.0, sec.0, fy.0, fy.1))
  }

  /** `\.%f\s+%Y` and the end of the string: the microseconds and the year. */
  function MatchFractionYear(s: string): Option<(nat, nat)> {
    var s1 :- Literal(s, '.');
    var f :- Fraction(s1);
    var s2 :- Spaces(f.1);
    var y :- YearAtEnd(s2);
    Some((f.0, y))
  }

  /** The regex after `%a`: `\s+%b\s+%d\s+` and the clock; the weekday is left 0. */
  function MatchAfterWeekday(s: string): Option<Fields> {
    var s1 :- Spaces(s);
    var b :- Name(s1, MonthNames);
    var s2 :- Spaces(b.1);
    var d :- Field(s2, 1, 31);
    var s3 :- Spaces(d.1);
    var c :- MatchClock(s3);
    Some(Fields(0, b.0 + 1, d.0, c.hour, c.minute, c.second, c.micro, c.year))
  }

  /** The regex stage: `%a\s+%b\s+%d\s+%H:%M:%S\.%f\s+%Y`, anchored at both ends. */
  function MatchFormat(s: string): Option<Fields> {
    var a :- Name(s, WeekdayNames);
    var f :- MatchAfterWeekday(a.1);
    Some(f.(weekday := a.0))
  }

  function TimestampOf(f: Fields): Timestamp {
    Timestamp(f.year, f.month, f.day, f.hour, f.minute, f.second, f.micro)
  }

  /**
   * The whole of `strptime`: the regex stage, then the `datetime`
   * constructor's checks (year 0, 30 February, second 60 or 61 fail here).
   * The weekday is read but never compared with the date.
   */
  function ParseTimestamp(s: string): (r: Option<Timestamp>)
    ensures r.Some? ==> Valid(r.value)
  {
    match MatchFormat(s)
    case None => None
    case Some(f) => if Valid(TimestampOf(f)) then Some(TimestampOf(f)) else None
  }

  // ---------------------------------------------------------------------
  // Writing a timestamp in the same format, as `strftime` does.

  /** `v` written with exactly `n` digits, zero-padded on the left. */
  function Digits(v: nat, n: nat): (ds: string)
    ensures |ds| == n
  {
    if n == 0 then [] else Digits(v / 10, n - 1) + [('0' as int + v % 10) as char]
  }

  function Capitalize(w: string): string {
    if w == [] then [] else [UpperChar(w[0])] + w[1..]
  }

  /** Fields within the ranges the regex alone admits. */
  predicate InFormatRanges(f: Fields) {
    && f.weekday < 7 && 1 <= f.month <= 12 && 1 <= f.day <= 31
    && f.hour <= 23 && f.minute <= 59 && f.second <= 61 && f.micro < 1000000 && f.year <= 9999
  }

  /** The time and year written as "12:34:56.789012 2025". */
  function RenderClock(f: Fields): string {
    Digits(f.hour, 2) + (":" +
    (Digits(f.minute, 2) + (":" +
    (Digits(f.second, 2) + ("." +
    (Digits(f.micro, 6) + (" " +
    Digits(f.year, 4))))))))
  }

  /** The fields written as "Wed Sep 09 12:34:56.789012 2025". */
  function Render(f: Fields): string
    requires InFormatRanges(f)
  {
    Capitalize(WeekdayNames[f.weekday]) + (" " +
    (Capitalize(MonthNames[f.month - 1]) + (" " +
    (Digits(f.day, 2) + (" " + RenderClock(f))))))
  }

  /** `t.strftime('%a %b %d %H:%M:%S.%f %Y')`, with the true weekday. */
  function Format(t: Timestamp): string
    requires Valid(t)
  {
    Render(Fields(Weekday(t), t.month, t.day, t.hour, t.minute, t.second, t.micro, t.year))
  }

  // ---------------------------------------------------------------------
  // Every spelling of the fields the regular expression admits.

  /** `\s+` as written: a non-empty run of whitespace. */
  predicate IsGap(g: string) {
    |g| >= 1 && forall i :: 0 <= i < |g| ==> IsSpace(g[i])
  }

  /**
   * How a text spells the fields: the three letters written for each name,
   * in any case; the whitespace run before the month, the day, the clock
   * and the year; the digits of each numeric field (a fraction of no digits
   * leaves out ".%f" altogether); and what follows the year.
   */
  datatype Spelling = Spelling(weekday: string, month: string,
                               gapMonth: string, gapDay: string, gapClock: string, gapYear: string,
                               dayWidth: nat, hourWidth: nat, minuteWidth: nat, secondWidth: nat,
                               fractionWidth: nat, tail: string)

  /** The spelling fits the fields: names of that weekday and month, runs of whitespace, widths that hold the values. */
  predicate Shaped(f: Fields, sp: Spelling) {
    && f.weekday < 7
    && |sp.weekday| == 3 && Lower(sp.weekday) == WeekdayNames[f.weekday]
    && ShapedAfterWeekday(f, sp)
  }

  predicate ShapedAfterWeekday(f: Fields, sp: Spelling) {
    && 1 <= f.month <= 12
    && |sp.month| == 3 && Lower(sp.month) == MonthNames[f.month - 1]
    && IsGap(sp.gapMonth) && IsGap(sp.gapDay) && IsGap(sp.gapClock)
    && 1 <= sp.dayWidth <= 2 && f.day < Pow10(sp.dayWidth)
    && ShapedClock(f, sp)
  }

  predicate ShapedClock(f: Fields, sp: Spelling) {
    && 1 <= sp.hourWidth <= 2 && f.hour < Pow10(sp.hourWidth)
    && 1 <= sp.minuteWidth <= 2 && f.minute < Pow10(sp.minuteWidth)
    && 1 <= sp.secondWidth <= 2 && f.second < Pow10(sp.secondWidth)
    && ShapedFraction(f, sp)
  }

  predicate ShapedFraction(f: Fields, sp: Spelling) {
    && IsGap(sp.gapYear)
    && sp.fractionWidth <= 6 && f.micro < 1000000 && f.micro % Pow10(6 - sp.fractionWidth) == 0
    && f.year < 10000
  }

  /** From the fraction on: ".<digits>", the run before the year, the year and the tail. */
  function SpellFraction(f: Fields, sp: Spelling): string
    requires sp.fractionWidth <= 6
  {
    var year := sp.gapYear + (Digits(f.year, 4) + sp.tail);
    if sp.fractionWidth == 0 then year
    else
      var scale := Pow10(6 - sp.fractionWidth);
      assert scale >= 1;
      "." + (Digits(f.micro / scale, sp.fractionWidth) + year)
  }

  function SpellClock(f: Fields, sp: Spelling): string
    requires sp.fractionWidth <= 6
  {
    Digits(f.hour, sp.hourWidth) + (":" +
    (Digits(f.minute, sp.minuteWidth) + (":" +
    (Digits(f.second, sp.secondWidth) + SpellFraction(f, sp)))))
  }

  /** Everything after the weekday name. */
  function SpellAfterWeekday(f: Fields, sp: Spelling): string
    requires sp.fractionWidth <= 6
  {
    sp.gapMonth + (sp.month + (sp.gapDay + (Digits(f.day, sp.dayWidth) + (sp.gapClock + SpellClock(f, sp)))))
  }

  function Spell(f: Fields, sp: Spelling): string
    requires sp.fractionWidth <= 6
  {
    sp.weekday + SpellAfterWeekday(f, sp)
  }

  /** The spelling `strftime` uses: capitalised names, single spaces, full widths, nothing after the year. */
  function Canonical(f: Fields): Spelling
    requires f.weekday < 7 && 1 <= f.month <= 12
  {
    Spelling(Capitalize(WeekdayNames[f.weekday]), Capitalize(MonthNames[f.month - 1]),
             " ", " ", " ", " ", 2, 2, 2, 2, 6, [])
  }

  // ---------------------------------------------------------------------
  // Lemmas about the pieces.

  lemma {:induction false} DigitsAreDigits(v: nat, n: nat)
    ensures forall i :: 0 <= i < n ==> IsDigit(Digits(v, n)[i])
  {
    if n > 0 {
      DigitsAreDigits(v / 10, n - 1);
    }
  }

  lemma {:induction false} DigitsValueOfDigits(v: nat, n: nat)
    requires v < Pow10(n)
    ensures DigitsValue(Digits(v, n)) == v
  {
    if n > 0 {
      var ds := Digits(v, n);
      var d := ds[n - 1];
      assert ds[..n - 1] == Digits(v / 10, n - 1);
      assert d == ('0' as int + v % 10) as char && IsDigit(d);
      assert (d - '0') as nat == v % 10;
      assert Pow10(n) == 10 * Pow10(n - 1);
      assert v / 10 < Pow10(n - 1);
      DigitsValueOfDigits(v / 10, n - 1);
      assert DigitsValue(ds) == DigitsValue(Digits(v / 10, n - 1)) * 10 + v % 10;
    }
  }

  lemma {:induction false} DigitCountOfPrefix(ds: string, rest: string)
    requires forall i :: 0 <= i < |ds| ==> IsDigit(ds[i])
    ensures DigitCount(ds + rest) == |ds| + DigitCount(rest)
    decreases |ds|
  {
    if ds == [] {
      assert ds + rest == rest;
    } else {
      assert (ds + rest)[1..] == ds[1..] + rest;
      DigitCountOfPrefix(ds[1..], rest);
    }
  }

  /** Reading back `n` written digits gives the number, its width and the rest. */
  lemma NumberOfDigits(v: nat, n: nat, maxDigits: nat, rest: string)
    requires 1 <= n <= maxDigits && v < Pow10(n)
    requires rest == [] || !IsDigit(rest[0])
    ensures Number(Digits(v, n) + rest, maxDigits) == Some((v, n, rest))
  {
    var s := Digits(v, n) + rest;
    DigitsAreDigits(v, n);
    DigitCountOfPrefix(Digits(v, n), rest);
    assert s[..n] == Digits(v, n);
    DigitsValueOfDigits(v, n);
  }

  lemma {:induction false} DropSpacesOfGap(g: string, rest: string)
    requires forall i :: 0 <= i < |g| ==> IsSpace(g[i])
    requires rest == [] || !IsSpace(rest[0])
    ensures DropSpaces(g + rest) == rest
    decreases |g|
  {
    if g == [] {
      assert g + rest == rest;
    } else {
      assert (g + rest)[1..] == g[1..] + rest;
      DropSpacesOfGap(g[1..], rest);
    }
  }

  /** `\s+` reads a whole run of whitespace, up to the next other character. */
  lemma GapOf(g: string, rest: string)
    requires IsGap(g)
    requires rest == [] || !IsSpace(rest[0])
    ensures Spaces(g + rest) == Some(rest)
  {
    DropSpacesOfGap(g, rest);
  }

  /** A name spelled in any case is read as its position in the table. */
  lemma NameOfSpelling(names: seq<string>, i: nat, a: string, rest: string)
    requires i < |names| && |a| == 3 && Lower(a) == names[i]
    requires forall j :: 0 <= j < i ==> names[j] != names[i]
    ensures Name(a + rest, names) == Some((i, rest))
  {
    assert (a + rest)[..3] == a && (a + rest)[3..] == rest;
    IndexOfFirst(names, i);
  }

  /** A name starts with a letter, which is neither whitespace nor a digit. */
  lemma NameStart(a: string, rest: string)
    requires |a| == 3 && 'a' <= Lower(a)[0] <= 'z'
    ensures !IsSpace((a + rest)[0]) && !IsDigit((a + rest)[0])
  {
    assert (a + rest)[0] == a[0] && Lower(a)[0] == LowerChar(a[0]);
  }

  lemma DigitsStart(v: nat, n: nat, rest: string)
    requires n >= 1
    ensures IsDigit((Digits(v, n) + rest)[0]) && !IsSpace((Digits(v, n) + rest)[0])
  {
    DigitsAreDigits(v, n);
  }

  /** A one- or two-digit field is read back, and rejected when out of range. */
  lemma FieldOfWidth(v: nat, n: nat, lo: nat, hi: nat, rest: string)
    requires 1 <= n <= 2 && v < Pow10(n)
    requires rest == [] || !IsDigit(rest[0])
    ensures Field(Digits(v, n) + rest, lo, hi) == if lo <= v <= hi then Some((v, rest)) else None
  {
    NumberOfDigits(v, n, 2, rest);
  }

  lemma {:induction false} Pow10Add(a: nat, b: nat)
    ensures Pow10(a + b) == Pow10(a) * Pow10(b)
  {
    if a > 0 {
      Pow10Add(a - 1, b);
      assert Pow10(a + b) == 10 * Pow10(a - 1 + b);
      assert Pow10(a) * Pow10(b) == 10 * (Pow10(a - 1) * Pow10(b));
    }
  }

  /**
   * A fraction of `n` digits is padded on the right: the microseconds
   * `micro`, a multiple of 10^(6-n), written as their first `n` digits,
   * are read back whole.
   */
  lemma FractionOfWidth(micro: nat, n: nat, rest: string)
    requires 1 <= n <= 6 && micro < 1000000 && micro % Pow10(6 - n) == 0
    requires rest == [] || !IsDigit(rest[0])
    ensures Fraction(Digits(micro / Pow10(6 - n), n) + rest) == Some((micro, rest))
  {
    var p := Pow10(6 - n);
    var u := micro / p;
    Pow10Add(n, 6 - n);
    assert Pow10(6) == 1000000;
    assert micro == u * p;
    NumberOfDigits(u, n, 6, rest);
  }

  /** `%Y` is four digits that must end the text: anything after them is "unconverted data". */
  lemma YearThen(v: nat, tail: string)
    requires v < 10000
    ensures YearAtEnd(Digits(v, 4) + tail) == if tail == [] then Some(v) else None
  {
    var s := Digits(v, 4) + tail;
    DigitsAreDigits(v, 4);
    DigitCountOfPrefix(Digits(v, 4), tail);
    if tail != [] && IsDigit(tail[0]) {
      assert DigitCount(tail) >= 1;
    } else {
      assert DigitCount(tail) == 0;
      assert s[..4] == Digits(v, 4) && s[4..] == tail;
      assert Pow10(4) == 10000;
      DigitsValueOfDigits(v, 4);
    }
  }

  lemma {:induction false} IndexOfFirst(names: seq<string>, i: nat)
    requires i < |names|
    requires forall j :: 0 <= j < i ==> names[j] != names[i]
    ensures IndexOf(names, names[i]) == Some(i)
  {
    if i > 0 {
      IndexOfFirst(names[1..], i - 1);
    }
  }

  lemma NameTables()
    ensures forall j :: 0 <= j < |WeekdayNames| ==>
      |WeekdayNames[j]| == 3 && forall k :: 0 <= k < 3 ==> 'a' <= WeekdayNames[j][k] <= 'z'
    ensures forall j :: 0 <= j < |MonthNames| ==>
      |MonthNames[j]| == 3 && forall k :: 0 <= k < 3 ==> 'a' <= MonthNames[j][k] <= 'z'
    ensures forall i, j :: 0 <= j < i < |WeekdayNames| ==> WeekdayNames[j] != WeekdayNames[i]
    ensures forall i, j :: 0 <= j < i < |MonthNames| ==> MonthNames[j] != MonthNames[i]
  {
  }

  // ---------------------------------------------------------------------
  // What the parser accepts.

  lemma LiteralOf(c: char, rest: string)
    ensures Literal([c] + rest, c) == Some(rest)
  {
    assert ([c] + rest)[1..] == rest;
  }

  /** `MatchClock` follows its steps: it fails at the first field out of range, or when the fraction and year fail. */
  lemma MatchClockFrom(s: string, s1: string, s2: string, s3: string, s4: string, s5: string,
                       h: nat, m: nat, sec: nat, fy: Option<(nat, nat)>)
    requires Field(s, 0, 23) == (if h <= 23 then Some((h, s1)) else None)
    requires Literal(s1, ':') == Some(s2)
    requires Field(s2, 0, 59) == (if m <= 59 then Some((m, s3)) else None)
    requires Literal(s3, ':') == Some(s4)
    requires Field(s4, 0, 61) == (if sec <= 61 then Some((sec, s5)) else None)
    requires MatchFractionYear(s5) == fy
    ensures MatchClock(s) ==
      if h <= 23 && m <= 59 && sec <= 61 && fy.Some? then Some(Clock(h, m, sec, fy.value.0, fy.value.1)) else None
  {
  }

  /** `MatchAfterWeekday` follows its steps: it fails when the day is out of range or the clock fails. */
  lemma MatchAfterWeekdayFrom(r0: string, r1: string, r2: string, r3: string, r4: string,
                              r5: string, m: nat, d: nat, c: Option<Clock>)
    requires Spaces(r0) == Some(r1)
    requires Name(r1, MonthNames) == Some((m, r2))
    requires Spaces(r2) == Some(r3)
    requires Field(r3, 1, 31) == (if 1 <= d <= 31 then Some((d, r4)) else None)
    requires Spaces(r4) == Some(r5)
    requires MatchClock(r5) == c
    ensures MatchAfterWeekday(r0) == if 1 <= d <= 31 && c.Some? then
      Some(Fields(0, m + 1, d, c.value.hour, c.value.minute, c.value.second, c.value.micro, c.value.year))
      else None
  {
    if 1 <= d <= 31 && c.Some? {
      MatchAfterWeekdayFields(r0, r1, r2, r3, r4, r5, m, d, c.value);
    } else if 1 <= d <= 31 {
      assert MatchClock(r5) == None;
    } else {
      assert Field(r3, 1, 31) == None;
    }
  }

  /**
   * The successful case field by field: the solver finds these one at a
   * time far more easily than the equation between whole records.
   */
  lemma MatchAfterWeekdayFields(r0: string, r1: string, r2: string, r3: string, r4: string,
                                r5: string, m: nat, d: nat, c: Clock)
    requires Spaces(r0) == Some(r1)
    requires Name(r1, MonthNames) == Some((m, r2))
    requires Spaces(r2) == Some(r3)
    requires Field(r3, 1, 31) == Some((d, r4))
    requires Spaces(r4) == Some(r5)
    requires MatchClock(r5) == Some(c)
    ensures MatchAfterWeekday(r0).Some?
    ensures MatchAfterWeekday(r0).value.weekday == 0
    ensures MatchAfterWeekday(r0).value.month == m + 1 && MatchAfterWeekday(r0).value.day == d
    ensures MatchAfterWeekday(r0).value.hour == c.hour && MatchAfterWeekday(r0).value.minute == c.minute
    ensures MatchAfterWeekday(r0).value.second == c.second && MatchAfterWeekday(r0).value.micro == c.micro
    ensures MatchAfterWeekday(r0).value.year == c.year
  {
  }

  /** `MatchFormat` follows its steps: the weekday name, then the rest. */
  lemma MatchFormatFrom(s: string, r0: string, wd: nat, g: Option<Fields>)
    requires Name(s, WeekdayNames) == Some((wd, r0))
    requires MatchAfterWeekday(r0) == g
    ensures MatchFormat(s) == if g.Some? then Some(g.value.(weekday := wd)) else None
  {
  }

  /** Text that does not open with a weekday name never parses. */
  lemma UnknownWeekday(s: string)
    requires |s| < 3 || Lower(s[..3]) !in WeekdayNames
    ensures ParseTimestamp(s) == None
  {
    assert Name(s, WeekdayNames) == None;
  }

  /** The fraction, the year and the tail as spelled are read back when the fraction is there and nothing follows the year. */
  lemma MatchSpelledFraction(f: Fields, sp: Spelling)
    requires ShapedFraction(f, sp)
    ensures MatchFractionYear(SpellFraction(f, sp)) ==
      if sp.fractionWidth > 0 && sp.tail == [] then Some((f.micro, f.year)) else None
    ensures SpellFraction(f, sp) != [] && !IsDigit(SpellFraction(f, sp)[0])
  {
    var w := sp.fractionWidth;
    var c8 := Digits(f.year, 4) + sp.tail;
    var c7 := sp.gapYear + c8;
    if w == 0 {
      assert SpellFraction(f, sp) == c7 && c7[0] == sp.gapYear[0];
    } else {
      var c6 := Digits(f.micro / Pow10(6 - w), w) + c7;
      assert SpellFraction(f, sp) == "." + c6;
      LiteralOf('.', c6);
      assert c7[0] == sp.gapYear[0];
      FractionOfWidth(f.micro, w, c7);
      DigitsStart(f.year, 4, sp.tail);
      GapOf(sp.gapYear, c8);
      YearThen(f.year, sp.tail);
      MatchFractionYearFrom(SpellFraction(f, sp), c6, c7, c8, f.micro, if sp.tail == [] then Some(f.year) else None);
    }
  }

  lemma MatchFractionYearFrom(s: string, s1: string, s2: string, s3: string, micro: nat, y: Option<nat>)
    requires Literal(s, '.') == Some(s1)
    requires Fraction(s1) == Some((micro, s2))
    requires Spaces(s2) == Some(s3)
    requires YearAtEnd(s3) == y
    ensures MatchFractionYear(s) == if y.Some? then Some((micro, y.value)) else None
  {
  }

  /** The clock as spelled is read back exactly when its fields are in range, a fraction is there and nothing follows the year. */
  lemma MatchSpelledClock(f: Fields, sp: Spelling)
    requires ShapedClock(f, sp)
    ensures MatchClock(SpellClock(f, sp)) ==
      if f.hour <= 23 && f.minute <= 59 && f.second <= 61 && sp.fractionWidth > 0 && sp.tail == []
      then Some(Clock(f.hour, f.minute, f.second, f.micro, f.year)) else None
  {
    var c5 := SpellFraction(f, sp);
    var c4 := Digits(f.second, sp.secondWidth) + c5;
    var c3 := ":" + c4;
    var c2 := Digits(f.minute, sp.minuteWidth) + c3;
    var c1 := ":" + c2;
    var c0 := Digits(f.hour, sp.hourWidth) + c1;
    assert SpellClock(f, sp) == c0;
    FieldOfWidth(f.hour, sp.hourWidth, 0, 23, c1);
    LiteralOf(':', c2);
    FieldOfWidth(f.minute, sp.minuteWidth, 0, 59, c3);
    LiteralOf(':', c4);
    MatchSpelledFraction(f, sp);
    FieldOfWidth(f.second, sp.secondWidth, 0, 61, c5);
    MatchClockFrom(c0, c1, c2, c3, c4, c5, f.hour, f.minute, f.second, MatchFractionYear(c5));
  }

  /** Everything after the weekday name, as spelled, is read back exactly when the day and the clock are. */
  lemma MatchSpelledAfterWeekday(f: Fields, sp: Spelling)
    requires ShapedAfterWeekday(f, sp)
    ensures MatchAfterWeekday(SpellAfterWeekday(f, sp)) ==
      if 1 <= f.day <= 31 && f.hour <= 23 && f.minute <= 59 && f.second <= 61 && sp.fractionWidth > 0 && sp.tail == []
      then Some(Fields(0, f.month, f.day, f.hour, f.minute, f.second, f.micro, f.year)) else None
  {
    var r5 := SpellClock(f, sp);
    var r4 := sp.gapClock + r5;
    var r3 := Digits(f.day, sp.dayWidth) + r4;
    var r2 := sp.gapDay + r3;
    var r1 := sp.month + r2;
    var r0 := sp.gapMonth + r1;
    assert SpellAfterWeekday(f, sp) == r0;
    NameTables();
    NameStart(sp.month, r2);
    GapOf(sp.gapMonth, r1);
    var m: nat := f.month - 1;
    NameOfSpelling(MonthNames, m, sp.month, r2);
    DigitsStart(f.day, sp.dayWidth, r4);
    GapOf(sp.gapDay, r3);
    assert r4[0] == sp.gapClock[0];
    FieldOfWidth(f.day, sp.dayWidth, 1, 31, r4);
    DigitsStart(f.hour, sp.hourWidth, ":" + (Digits(f.minute, sp.minuteWidth) + (":" + (Digits(f.second, sp.secondWidth) + SpellFraction(f, sp)))));
    GapOf(sp.gapClock, r5);
    MatchSpelledClock(f, sp);
    if f.hour <= 23 && f.minute <= 59 && f.second <= 61 && sp.fractionWidth > 0 && sp.tail == [] {
      var c := Clock(f.hour, f.minute, f.second, f.micro, f.year);
      MatchAfterWeekdayFrom(r0, r1, r2, r3, r4, r5, m, f.day, Some(c));
    } else {
      MatchAfterWeekdayFrom(r0, r1, r2, r3, r4, r5, m, f.day, None);
    }
  }

  /**
   * The regex stage on any spelling: names in any case, runs of
   * whitespace, fields of one or two digits, a fraction of one to six
   * digits padded on the right. It gives back the fields exactly when
   * they are within the regex's ranges, the fraction is there and nothing
   * follows the year.
   */
  lemma MatchSpelled(f: Fields, sp: Spelling)
    requires Shaped(f, sp)
    ensures MatchFormat(Spell(f, sp)) ==
      if InFormatRanges(f) && sp.fractionWidth > 0 && sp.tail == [] then Some(f) else None
  {
    var r0 := SpellAfterWeekday(f, sp);
    NameTables();
    NameOfSpelling(WeekdayNames, f.weekday, sp.weekday, r0);
    MatchSpelledAfterWeekday(f, sp);
    MatchFormatFrom(sp.weekday + r0, r0, f.weekday, MatchAfterWeekday(r0));
  }

  /**
   * `strptime` on any spelling: the datetime the fields name, exactly when
   * it exists, the fraction is there and nothing follows the year. Hour 24,
   * day 32, second 60, 30 February, year 0, a missing ".%f" and text after
   * the year all make it fail.
   */
  lemma ParseSpelled(f: Fields, sp: Spelling)
    requires Shaped(f, sp)
    ensures ParseTimestamp(Spell(f, sp)) ==
      if Valid(TimestampOf(f)) && sp.fractionWidth > 0 && sp.tail == [] then Some(TimestampOf(f)) else None
  {
    var s := Spell(f, sp);
    MatchSpelled(f, sp);
    ValidInRanges(f);
    if InFormatRanges(f) && sp.fractionWidth > 0 && sp.tail == [] {
      assert MatchFormat(s) == Some(f);
    } else {
      assert MatchFormat(s) == None;
    }
  }

  /** A datetime that exists has its fields within the regex's ranges. */
  lemma ValidInRanges(f: Fields)
    requires f.weekday < 7
    ensures Valid(TimestampOf(f)) ==> InFormatRanges(f)
  {
  }

  /** A fraction of one digit is tenths of a second: ".5" is 500000 microseconds. */
  lemma FractionTenths(rest: string)
    requires rest == [] || !IsDigit(rest[0])
    ensures Fraction("5" + rest) == Some((500000, rest))
  {
    assert Pow10(5) == 100000;
    assert Digits(5, 1) == "5";
    FractionOfWidth(500000, 1, rest);
  }

  /** A month name that is not one of the twelve makes the text fail, whatever follows. */
  lemma UnknownMonth(a: string, gap: string, rest: string)
    requires |a| == 3 && Lower(a) in WeekdayNames && IsGap(gap)
    requires rest == [] || !IsSpace(rest[0])
    requires |rest| < 3 || Lower(rest[..3]) !in MonthNames
    ensures ParseTimestamp(a + (gap + rest)) == None
  {
    NameOfThree(a, gap + rest);
    GapOf(gap, rest);
    assert Name(rest, MonthNames) == None;
  }

  // ---------------------------------------------------------------------
  // Conversely, every text that parses is one of the spellings: a text
  // with a field missing, doubled or out of place never parses.

  lemma {:induction false} DigitCountDigits(s: string)
    ensures forall i :: 0 <= i < DigitCount(s) ==> IsDigit(s[i])
  {
    if s != [] && IsDigit(s[0]) {
      DigitCountDigits(s[1..]);
      assert forall i :: 1 <= i < DigitCount(s) ==> s[i] == s[1..][i - 1];
    }
  }

  /** A run of digits is its own value written at its own width. */
  lemma {:induction false} DigitsOfValue(ds: string)
    requires forall i :: 0 <= i < |ds| ==> IsDigit(ds[i])
    ensures DigitsValue(ds) < Pow10(|ds|)
    ensures Digits(DigitsValue(ds), |ds|) == ds
    decreases |ds|
  {
    if ds != [] {
      var n := |ds|;
      var p := ds[..n - 1];
      var d := ds[n - 1];
      DigitsOfValue(p);
      var v := DigitsValue(p);
      var dv := (d - '0') as nat;
      assert DigitsValue(ds) == v * 10 + dv;
      assert (v * 10 + dv) / 10 == v && (v * 10 + dv) % 10 == dv;
      assert ('0' as int + dv) as char == d;
      assert ds == p + [d];
    }
  }

  /** A number read is its digits written at the width read. */
  lemma NumberSpelled(s: string, maxDigits: nat)
    requires Number(s, maxDigits).Some?
    ensures var r := Number(s, maxDigits).value;
      1 <= r.1 <= maxDigits && r.0 < Pow10(r.1) && s == Digits(r.0, r.1) + r.2
  {
    var n := DigitCount(s);
    DigitCountDigits(s);
    DigitsOfValue(s[..n]);
    assert s == s[..n] + s[n..];
  }

  lemma FieldSpelled(s: string, lo: nat, hi: nat, v: nat, rest: string) returns (n: nat)
    requires Field(s, lo, hi) == Some((v, rest))
    ensures 1 <= n <= 2 && lo <= v <= hi && v < Pow10(n) && s == Digits(v, n) + rest
  {
    NumberSpelled(s, 2);
    n := Number(s, 2).value.1;
  }

  lemma FractionSpelled(s: string, micro: nat, rest: string) returns (n: nat)
    requires Fraction(s) == Some((micro, rest))
    ensures 1 <= n <= 6 && micro < 1000000 && micro % Pow10(6 - n) == 0
    ensures s == Digits(micro / Pow10(6 - n), n) + rest
  {
    NumberSpelled(s, 6);
    n := Number(s, 6).value.1;
    PadRight(Number(s, 6).value.0, n);
  }

  /** Padding `n` digits on the right to six: below a million, and the digits come back by division. */
  lemma PadRight(v: nat, n: nat)
    requires n <= 6 && v < Pow10(n)
    ensures v * Pow10(6 - n) < 1000000
    ensures (v * Pow10(6 - n)) / Pow10(6 - n) == v && (v * Pow10(6 - n)) % Pow10(6 - n) == 0
  {
    var p := Pow10(6 - n);
    Pow10Add(n, 6 - n);
    assert Pow10(6) == 1000000;
    assert v * p < Pow10(n) * p;
  }

  lemma YearSpelled(s: string, y: nat)
    requires YearAtEnd(s) == Some(y)
    ensures y < 10000 && s == Digits(y, 4)
  {
    NumberSpelled(s, 4);
    assert Pow10(4) == 10000;
  }

  lemma {:induction false} DropSpacesSplit(s: string) returns (g: string)
    ensures forall i :: 0 <= i < |g| ==> IsSpace(g[i])
    ensures s == g + DropSpaces(s)
    decreases |s|
  {
    if s != [] && IsSpace(s[0]) {
      var g' := DropSpacesSplit(s[1..]);
      g := [s[0]] + g';
      assert forall i :: 1 <= i < |g| ==> g[i] == g'[i - 1];
      assert DropSpaces(s) == DropSpaces(s[1..]);
      assert s == [s[0]] + (g' + DropSpaces(s[1..]));
    } else {
      g := [];
    }
  }

  lemma GapSpelled(s: string, rest: string) returns (g: string)
    requires Spaces(s) == Some(rest)
    ensures IsGap(g) && s == g + rest
  {
    var g' := DropSpacesSplit(s[1..]);
    g := [s[0]] + g';
    assert s == [s[0]] + s[1..];
  }

  lemma NameSpelled(s: string, names: seq<string>, i: nat, rest: string)
    requires Name(s, names) == Some((i, rest))
    ensures |s| >= 3 && i < |names| && Lower(s[..3]) == names[i] && s == s[..3] + rest
  {
    assert s == s[..3] + s[3..];
  }

  /** The fraction part depends only on the fraction's width, the run before the year and the tail. */
  lemma SameFraction(f: Fields, sp: Spelling, sp': Spelling)
    requires sp.fractionWidth == sp'.fractionWidth <= 6 && sp.gapYear == sp'.gapYear && sp.tail == sp'.tail
    ensures ShapedFraction(f, sp) == ShapedFraction(f, sp') && SpellFraction(f, sp) == SpellFraction(f, sp')
  {
  }

  lemma SameClock(f: Fields, sp: Spelling, sp': Spelling)
    requires sp.fractionWidth == sp'.fractionWidth <= 6 && sp.gapYear == sp'.gapYear && sp.tail == sp'.tail
    requires sp.hourWidth == sp'.hourWidth && sp.minuteWidth == sp'.minuteWidth && sp.secondWidth == sp'.secondWidth
    ensures ShapedClock(f, sp) == ShapedClock(f, sp') && SpellClock(f, sp) == SpellClock(f, sp')
  {
    SameFraction(f, sp, sp');
  }

  lemma SameAfterWeekdaySpelling(f: Fields, sp: Spelling, sp': Spelling)
    requires sp' == sp.(weekday := sp'.weekday) && sp.fractionWidth <= 6
    ensures ShapedAfterWeekday(f, sp) == ShapedAfterWeekday(f, sp')
    ensures SpellAfterWeekday(f, sp) == SpellAfterWeekday(f, sp')
  {
    SameClock(f, sp, sp');
  }

  lemma FractionYearSteps(s: string, f: Fields) returns (s1: string, s2: string, s3: string)
    requires MatchFractionYear(s) == Some((f.micro, f.year))
    ensures Literal(s, '.') == Some(s1) && Fraction(s1) == Some((f.micro, s2))
    ensures Spaces(s2) == Some(s3) && YearAtEnd(s3) == Some(f.year)
  {
    s1 := Literal(s, '.').value;
    s2 := Fraction(s1).value.1;
    s3 := Spaces(s2).value;
  }

  lemma FractionYearSpelled(s: string, f: Fields) returns (sp: Spelling)
    requires MatchFractionYear(s) == Some((f.micro, f.year))
    ensures ShapedFraction(f, sp) && sp.fractionWidth > 0 && sp.tail == []
    ensures s == SpellFraction(f, sp)
  {
    var s1, s2, s3 := FractionYearSteps(s, f);
    assert s == "." + s1;
    var n := FractionSpelled(s1, f.micro, s2);
    var g := GapSpelled(s2, s3);
    YearSpelled(s3, f.year);
    sp := Spelling("", "", "", "", "", g, 0, 0, 0, 0, n, []);
    assert s3 + [] == s3;
  }

  lemma ClockSteps(s: string, f: Fields) returns (s1: string, s2: string, s3: string, s4: string, s5: string)
    requires MatchClock(s) == Some(Clock(f.hour, f.minute, f.second, f.micro, f.year))
    ensures Field(s, 0, 23) == Some((f.hour, s1)) && Literal(s1, ':') == Some(s2)
    ensures Field(s2, 0, 59) == Some((f.minute, s3)) && Literal(s3, ':') == Some(s4)
    ensures Field(s4, 0, 61) == Some((f.second, s5)) && MatchFractionYear(s5) == Some((f.micro, f.year))
  {
    s1 := Field(s, 0, 23).value.1;
    s2 := Literal(s1, ':').value;
    s3 := Field(s2, 0, 59).value.1;
    s4 := Literal(s3, ':').value;
    s5 := Field(s4, 0, 61).value.1;
  }

  lemma ClockSpelled(s: string, f: Fields) returns (sp: Spelling)
    requires MatchClock(s) == Some(Clock(f.hour, f.minute, f.second, f.micro, f.year))
    ensures ShapedClock(f, sp) && sp.fractionWidth > 0 && sp.tail == []
    ensures s == SpellClock(f, sp)
  {
    var s1, s2, s3, s4, s5 := ClockSteps(s, f);
    var hw := FieldSpelled(s, 0, 23, f.hour, s1);
    var mw := FieldSpelled(s2, 0, 59, f.minute, s3);
    var sw := FieldSpelled(s4, 0, 61, f.second, s5);
    assert s1 == ":" + s2 && s3 == ":" + s4;
    sp := ClockOfDigits(s, s5, f, hw, mw, sw);
  }

  lemma ClockOfDigits(s: string, s5: string, f: Fields, hw: nat, mw: nat, sw: nat) returns (sp: Spelling)
    requires 1 <= hw <= 2 && f.hour < Pow10(hw)
    requires 1 <= mw <= 2 && f.minute < Pow10(mw)
    requires 1 <= sw <= 2 && f.second < Pow10(sw)
    requires s == Digits(f.hour, hw) + (":" + (Digits(f.minute, mw) + (":" + (Digits(f.second, sw) + s5))))
    requires MatchFractionYear(s5) == Some((f.micro, f.year))
    ensures ShapedClock(f, sp) && sp.fractionWidth > 0 && sp.tail == []
    ensures s == SpellClock(f, sp)
  {
    var fsp := FractionYearSpelled(s5, f);
    sp := fsp.(hourWidth := hw, minuteWidth := mw, secondWidth := sw);
    SameFraction(f, sp, fsp);
    ClockOfFraction(f, sp, s5);
  }

  /** The clock part is the three fields and the fraction part. */
  lemma ClockOfFraction(f: Fields, sp: Spelling, s5: string)
    requires sp.fractionWidth <= 6 && s5 == SpellFraction(f, sp)
    ensures SpellClock(f, sp) ==
      Digits(f.hour, sp.hourWidth) + (":" + (Digits(f.minute, sp.minuteWidth) + (":" + (Digits(f.second, sp.secondWidth) + s5))))
  {
  }

  lemma AfterWeekdaySteps(s: string)
    returns (s1: string, r2: string, s2: string, r3: string, s3: string, b: nat, d: nat, c: Clock)
    requires MatchAfterWeekday(s).Some?
    ensures Spaces(s) == Some(s1) && Name(s1, MonthNames) == Some((b, r2))
    ensures Spaces(r2) == Some(s2) && Field(s2, 1, 31) == Some((d, r3)) && Spaces(r3) == Some(s3)
    ensures MatchClock(s3) == Some(c)
    ensures MatchAfterWeekday(s).value == Fields(0, b + 1, d, c.hour, c.minute, c.second, c.micro, c.year)
  {
    s1 := Spaces(s).value;
    b, r2 := Name(s1, MonthNames).value.0, Name(s1, MonthNames).value.1;
    s2 := Spaces(r2).value;
    d, r3 := Field(s2, 1, 31).value.0, Field(s2, 1, 31).value.1;
    s3 := Spaces(r3).value;
    c := MatchClock(s3).value;
  }

  lemma AfterWeekdaySpelled(s: string, f: Fields) returns (sp: Spelling)
    requires MatchAfterWeekday(s) == Some(f.(weekday := 0))
    ensures ShapedAfterWeekday(f, sp) && sp.fractionWidth > 0 && sp.tail == []
    ensures s == SpellAfterWeekday(f, sp)
  {
    var s1, r2, s2, r3, s3, b, d, c := AfterWeekdaySteps(s);
    sp := AfterWeekdayFromSteps(s, s1, r2, s2, r3, s3, b, d, c, f);
  }

  lemma AfterWeekdayFromSteps(s: string, s1: string, r2: string, s2: string, r3: string, s3: string,
                               b: nat, d: nat, c: Clock, f: Fields)
    returns (sp: Spelling)
    requires Spaces(s) == Some(s1) && Name(s1, MonthNames) == Some((b, r2))
    requires Spaces(r2) == Some(s2) && Field(s2, 1, 31) == Some((d, r3)) && Spaces(r3) == Some(s3)
    requires MatchClock(s3) == Some(c)
    requires f.(weekday := 0) == Fields(0, b + 1, d, c.hour, c.minute, c.second, c.micro, c.year)
    ensures ShapedAfterWeekday(f, sp) && sp.fractionWidth > 0 && sp.tail == []
    ensures s == SpellAfterWeekday(f, sp)
  {
    assert b == f.month - 1 && d == f.day && c == Clock(f.hour, f.minute, f.second, f.micro, f.year);
    var gm := GapSpelled(s, s1);
    NameSpelled(s1, MonthNames, f.month - 1, r2);
    var gd := GapSpelled(r2, s2);
    var dw := FieldSpelled(s2, 1, 31, f.day, r3);
    var gc := GapSpelled(r3, s3);
    assert s == gm + (s1[..3] + (gd + (Digits(f.day, dw) + (gc + s3))));
    sp := AfterWeekdayOfParts(s, s3, f, s1[..3], gm, gd, gc, dw);
  }

  lemma AfterWeekdayOfParts(s: string, s3: string, f: Fields, b: string, gm: string, gd: string, gc: string, dw: nat)
    returns (sp: Spelling)
    requires 1 <= f.month <= 12 && |b| == 3 && Lower(b) == MonthNames[f.month - 1]
    requires IsGap(gm) && IsGap(gd) && IsGap(gc) && 1 <= dw <= 2 && f.day < Pow10(dw)
    requires s == gm + (b + (gd + (Digits(f.day, dw) + (gc + s3))))
    requires MatchClock(s3) == Some(Clock(f.hour, f.minute, f.second, f.micro, f.year))
    ensures ShapedAfterWeekday(f, sp) && sp.fractionWidth > 0 && sp.tail == []
    ensures s == SpellAfterWeekday(f, sp)
  {
    var csp := ClockSpelled(s3, f);
    sp := csp.(month := b, gapMonth := gm, gapDay := gd, gapClock := gc, dayWidth := dw);
    SameClock(f, sp, csp);
    AfterWeekdayOfClock(f, sp, s3);
  }

  /** The text after the weekday is the month, the day and the clock part. */
  lemma AfterWeekdayOfClock(f: Fields, sp: Spelling, s3: string)
    requires sp.fractionWidth <= 6 && s3 == SpellClock(f, sp)
    ensures SpellAfterWeekday(f, sp) ==
      sp.gapMonth + (sp.month + (sp.gapDay + (Digits(f.day, sp.dayWidth) + (sp.gapClock + s3))))
  {
  }

  lemma FormatSteps(s: string, f: Fields) returns (r0: string)
    requires MatchFormat(s) == Some(f)
    ensures Name(s, WeekdayNames) == Some((f.weekday, r0)) && MatchAfterWeekday(r0) == Some(f.(weekday := 0))
  {
    r0 := Name(s, WeekdayNames).value.1;
  }

  lemma FormatSpelled(s: string, f: Fields) returns (sp: Spelling)
    requires MatchFormat(s) == Some(f)
    ensures Shaped(f, sp) && sp.fractionWidth > 0 && sp.tail == [] && Spell(f, sp) == s
  {
    var r0 := FormatSteps(s, f);
    NameSpelled(s, WeekdayNames, f.weekday, r0);
    var asp := AfterWeekdaySpelled(r0, f);
    sp := asp.(weekday := s[..3]);
    SameAfterWeekdaySpelling(f, asp, sp);
  }

  /**
   * Every text `strptime` accepts is one of the spellings, of the datetime
   * it returns: with `ParseSpelled`, the parser accepts exactly those. So
   * a text with a field missing ("Wed Sep 12:34:56.7 2025"), with the
   * seconds or the year left out, or with a field doubled never parses.
   */
  lemma ParsedIsSpelled(s: string)
    requires ParseTimestamp(s).Some?
    ensures exists f, sp :: && Shaped(f, sp) && sp.fractionWidth > 0 && sp.tail == []
                            && Spell(f, sp) == s && TimestampOf(f) == ParseTimestamp(s).value
  {
    var f := MatchFormat(s).value;
    var sp := FormatSpelled(s, f);
    assert TimestampOf(f) == ParseTimestamp(s).value;
  }

  /** `strftime`'s text is the canonical spelling. */
  lemma RenderIsSpelled(f: Fields)
    requires InFormatRanges(f)
    ensures Shaped(f, Canonical(f))
    ensures Render(f) == Spell(f, Canonical(f))
  {
    var sp := Canonical(f);
    NameTables();
    assert Lower(sp.weekday) == WeekdayNames[f.weekday];
    assert Lower(sp.month) == MonthNames[f.month - 1];
    assert Pow10(2) == 100 && Pow10(0) == 1;
    assert f.micro / Pow10(0) == f.micro;
    var yy := Digits(f.year, 4);
    assert yy + [] == yy;
    assert SpellFraction(f, sp) == "." + (Digits(f.micro, 6) + (" " + yy));
  }

  /** The regex reads back every field written in the format, whatever the widths allow. */
  lemma MatchRendered(f: Fields)
    requires InFormatRanges(f)
    ensures MatchFormat(Render(f)) == Some(f)
  {
    RenderIsSpelled(f);
    MatchSpelled(f, Canonical(f));
  }

  /**
   * Parsing text written in the format succeeds exactly when the fields
   * name a datetime that exists: 29 February of a common year, a 31st
   * of a 30-day month, year 0 and second 60 or 61 all fail.
   */
  lemma ParseRendered(f: Fields)
    requires InFormatRanges(f)
    ensures ParseTimestamp(Render(f)) == if Valid(TimestampOf(f)) then Some(TimestampOf(f)) else None
  {
    MatchRendered(f);
  }

  /** `strptime` inverts `strftime` on every datetime that exists. */
  lemma ParseFormat(t: Timestamp)
    requires Valid(t)
    ensures ParseTimestamp(Format(t)) == Some(t)
  {
    ParseRendered(Fields(Weekday(t), t.month, t.day, t.hour, t.minute, t.second, t.micro, t.year));
  }

  predicate NoBrackets(s: string) {
    '[' !in s && ']' !in s
  }

  lemma DigitsNoBrackets(v: nat, n: nat)
    ensures NoBrackets(Digits(v, n))
  {
    DigitsAreDigits(v, n);
  }

  lemma CapitalizedNoBrackets(w: string)
    requires forall k :: 0 <= k < |w| ==> 'a' <= w[k] <= 'z'
    ensures NoBrackets(Capitalize(w))
  {
    if w != [] {
      assert forall k :: 0 <= k < |w| - 1 ==> w[1..][k] == w[k + 1];
    }
  }

  /** Text written in the format holds no square bracket. */
  lemma RenderNoBrackets(f: Fields)
    requires InFormatRanges(f)
    ensures NoBrackets(Render(f)) && |Render(f)| > 0
  {
    NameTables();
    CapitalizedNoBrackets(WeekdayNames[f.weekday]);
    CapitalizedNoBrackets(MonthNames[f.month - 1]);
    DigitsNoBrackets(f.day, 2);
    DigitsNoBrackets(f.hour, 2);
    DigitsNoBrackets(f.minute, 2);
    DigitsNoBrackets(f.second, 2);
    DigitsNoBrackets(f.micro, 6);
    DigitsNoBrackets(f.year, 4);
    assert NoBrackets(RenderClock(f));
  }

  // ---------------------------------------------------------------------
  // Particular strings.

  /** The weekday is read but not compared with the date: any weekday name gives the same result. */
  lemma WeekdayNotChecked(a: string, b: string, rest: string)
    requires |a| == 3 && Lower(a) in WeekdayNames
    requires |b| == 3 && Lower(b) in WeekdayNames
    ensures ParseTimestamp(a + rest) == ParseTimestamp(b + rest)
  {
    NameOfThree(a, rest);
    NameOfThree(b, rest);
    SameAfterWeekday(a + rest, b + rest, rest);
  }

  lemma NameOfThree(a: string, rest: string)
    requires |a| == 3 && Lower(a) in WeekdayNames
    ensures Name(a + rest, WeekdayNames).Some? && Name(a + rest, WeekdayNames).value.1 == rest
  {
    assert (a + rest)[..3] == a && (a + rest)[3..] == rest;
  }

  lemma SameAfterWeekday(s1: string, s2: string, rest: string)
    requires Name(s1, WeekdayNames).Some? && Name(s1, WeekdayNames).value.1 == rest
    requires Name(s2, WeekdayNames).Some? && Name(s2, WeekdayNames).value.1 == rest
    ensures ParseTimestamp(s1) == ParseTimestamp(s2)
  {
  }

  // The lemmas from here to `DocumentedExample` compute the example's text.
  // `ExampleRenderClock`, `ExampleClockJoin`, `ExampleJoin` and
  // `ExampleText789012` only break its string literal into pieces the solver
  // joins quickly; they state nothing about `strptime`.

  lemma ExampleDigits()
    ensures Digits(9, 2) == "09" && Digits(12, 2) == "12" && Digits(34, 2) == "34"
    ensures Digits(56, 2) == "56" && Digits(2025, 4) == "2025"
    ensures Digits(789012, 6) == "789012" && Digits(0, 6) == "000000"
  {
    ExampleYearDigits();
    ExampleMicroDigits();
  }

  lemma ExampleYearDigits()
    ensures Digits(2025, 4) == "2025"
  {
    assert Digits(2, 1) == "2";
    assert Digits(20, 2) == "20";
    assert Digits(202, 3) == "202";
  }

  lemma ExampleMicroDigits()
    ensures Digits(789012, 6) == "789012" && Digits(0, 6) == "000000"
  {
    assert Digits(7, 1) == "7";
    assert Digits(78, 2) == "78";
    assert Digits(789, 3) == "789";
    assert Digits(7890, 4) == "7890";
    assert Digits(78901, 5) == "78901";
    assert Digits(0, 3) == "000";
  }

  /** The fields of "Wed Sep 09 12:34:56.<us> 2025". */
  function ExampleFields(micro: nat): Fields {
    Fields(2, 9, 9, 12, 34, 56, micro, 2025)
  }

  lemma ExampleRenderClock(micro: nat, us: string)
    requires Digits(micro, 6) == us
    ensures RenderClock(ExampleFields(micro)) == "12:34:56." + us + " 2025"
  {
    ExampleDigits();
    var hh, mi, ss, yy := Digits(12, 2), Digits(34, 2), Digits(56, 2), Digits(2025, 4);
    assert RenderClock(ExampleFields(micro))
      == hh + (":" + (mi + (":" + (ss + ("." + (us + (" " + yy)))))));
    ExampleClockJoin(hh, mi, ss, us, yy);
  }

  lemma ExampleClockJoin(hh: string, mi: string, ss: string, us: string, yy: string)
    requires hh == "12" && mi == "34" && ss == "56" && yy == "2025"
    ensures hh + (":" + (mi + (":" + (ss + ("." + (us + (" " + yy))))))) == "12:34:56." + us + " 2025"
  {
    assert "12:34:56." == hh + ":" + mi + ":" + ss + ".";
  }

  lemma ExampleNames()
    ensures Capitalize(WeekdayNames[2]) == "Wed" && Capitalize(MonthNames[8]) == "Sep"
  {
  }

  lemma ExampleRender(micro: nat, us: string)
    requires micro < 1000000 && Digits(micro, 6) == us
    ensures Render(ExampleFields(micro)) == "Wed Sep 09 12:34:56." + us + " 2025"
  {
    var f := ExampleFields(micro);
    ExampleDigits();
    ExampleNames();
    ExampleRenderClock(micro, us);
    var w, mo, dd, clock := Capitalize(WeekdayNames[2]), Capitalize(MonthNames[8]), Digits(9, 2), RenderClock(f);
    assert Render(f) == w + (" " + (mo + (" " + (dd + (" " + clock)))));
    ExampleJoin(w, mo, dd, us, clock);
  }

  lemma ExampleJoin(w: string, mo: string, dd: string, us: string, clock: string)
    requires w == "Wed" && mo == "Sep" && dd == "09" && clock == "12:34:56." + us + " 2025"
    ensures w + (" " + (mo + (" " + (dd + (" " + clock))))) == "Wed Sep 09 12:34:56." + us + " 2025"
  {
    assert "Wed Sep 09 12:34:56." == w + " " + mo + " " + dd + " " + "12:34:56.";
  }

  lemma ExampleWeekday()
    ensures Weekday(Timestamp(2025, 9, 9, 12, 34, 56, 789012)) == 1
  {
    assert DaysBeforeYear(2025) == 739251;
    assert DaysBeforeMonth(2025, 9) == 243;
  }

  /**
   * The line in the comment beside the filter: its date, 9 September 2025,
   * is a Tuesday, yet the "Wed" it carries is accepted.
   */
  lemma DocumentedExample()
    ensures ParseTimestamp("Wed Sep 09 12:34:56.789012 2025") == Some(Timestamp(2025, 9, 9, 12, 34, 56, 789012))
    ensures Weekday(Timestamp(2025, 9, 9, 12, 34, 56, 789012)) == 1
  {
    ExampleDigits();
    var us := Digits(789012, 6);
    ExampleRender(789012, us);
    ExampleText789012(us);
    var f := ExampleFields(789012);
    assert Render(f) == "Wed Sep 09 12:34:56.789012 2025";
    ParseRendered(f);
    assert Valid(TimestampOf(f));
    ExampleWeekday();
  }

  lemma ExampleText789012(us: string)
    requires us == "789012"
    ensures "Wed Sep 09 12:34:56." + us + " 2025" == "Wed Sep 09 12:34:56.789012 2025"
  {
  }
}
