/**
 * Python's naive `datetime`: seven integer fields, the range checks its
 * constructor makes, and the comparison `>=` the filter applies.
 */
module Timestamps {

  datatype Timestamp = Timestamp(year: int, month: int, day: int,
                                 hour: int, minute: int, second: int, micro: int)

  /** `a <= b` on naive datetimes: the fields compared in turn, year first. */
  predicate LessEq(a: Timestamp, b: Timestamp) {
    if a.year != b.year then a.year < b.year
    else if a.month != b.month then a.month < b.month
    else if a.day != b.day then a.day < b.day
    else if a.hour != b.hour then a.hour < b.hour
    else if a.minute != b.minute then a.minute < b.minute
    else if a.second != b.second then a.second < b.second
    else a.micro <= b.micro
  }

  lemma LessEqTransitive(a: Timestamp, b: Timestamp, c: Timestamp)
    requires LessEq(a, b) && LessEq(b, c)
    ensures LessEq(a, c)
  {
  }

  /** Gregorian leap years, as `calendar.isleap`. */
  predicate IsLeapYear(y: int) {
    y % 4 == 0 && (y % 100 != 0 || y % 400 == 0)
  }

  function DaysInMonth(y: int, m: int): int
    requires 1 <= m <= 12
  {
    if m == 2 then (if IsLeapYear(y) then 29 else 28)
    else if m == 4 || m == 6 || m == 9 || m == 11 then 30
    else 31
  }

  function DaysInYear(y: int): int {
    if IsLeapYear(y) then 366 else 365
  }

  /** The ranges `datetime(year, month, day, hour, minute, second, microsecond)` accepts. */
  predicate Valid(t: Timestamp) {
    && 1 <= t.year <= 9999
    && 1 <= t.month <= 12
    && 1 <= t.day <= DaysInMonth(t.year, t.month)
    && 0 <= t.hour < 24
    && 0 <= t.minute < 60
    && 0 <= t.second < 60
    && 0 <= t.micro < 1000000
  }

  /** Days in the years 1 .. y-1 of the proleptic Gregorian calendar. */
  function DaysBeforeYear(y: int): int
    requires y >= 1
  {
    var n := y - 1;
    n * 365 + n / 4 - n / 100 + n / 400
  }

  /** Days in the months 1 .. m-1 of year `y`. */
  function DaysBeforeMonth(y: int, m: int): (days: int)
    requires 1 <= m <= 12
    ensures 0 <= days
  {
    if m == 1 then 0 else DaysBeforeMonth(y, m - 1) + DaysInMonth(y, m - 1)
  }

  /** `date.toordinal()`: 1 January of year 1 is day 1. */
  function Ordinal(t: Timestamp): int
    requires Valid(t)
  {
    DaysBeforeYear(t.year) + DaysBeforeMonth(t.year, t.month) + t.day
  }

  /** Microseconds since midnight. */
  function TimeOfDay(t: Timestamp): int {
    ((t.hour * 60 + t.minute) * 60 + t.second) * 1000000 + t.micro
  }

  const MicrosPerDay := 86400000000

  /** The instant as a count of microseconds; `timedelta` arithmetic works on this count. */
  function Micros(t: Timestamp): int
    requires Valid(t)
  {
    Ordinal(t) * MicrosPerDay + TimeOfDay(t)
  }

  /** `date.weekday()`: Monday is 0, Sunday is 6. */
  function Weekday(t: Timestamp): int
    requires Valid(t)
  {
    (Ordinal(t) + 6) % 7
  }

  // ---------------------------------------------------------------------
  // The comparison agrees with the order of instants.

  lemma MulStep(d: int, k: int)
    requires d >= 1 && k >= 0
    ensures d * k >= k
  {
    assert d * k == (d - 1) * k + k;
    assert (d - 1) * k >= 0;
  }

  /** Comparing `a * k + r` numbers with remainders below `k` is lexicographic. */
  lemma MixedRadix(a: int, r: int, b: int, s: int, k: int)
    requires 0 <= r < k && 0 <= s < k
    ensures a * k + r <= b * k + s <==> a < b || (a == b && r <= s)
    ensures a * k + r == b * k + s <==> a == b && r == s
  {
    if a < b {
      assert b * k == a * k + (b - a) * k;
      MulStep(b - a, k);
    } else if a > b {
      assert a * k == b * k + (a - b) * k;
      MulStep(a - b, k);
    }
  }

  /** Stepping `n` to `n + 1` moves `n / k` on exactly at multiples of `k`. */
  lemma DivStep(n: int, k: int)
    requires n >= 0 && (k == 4 || k == 100 || k == 400)
    ensures (n + 1) / k == n / k + (if (n + 1) % k == 0 then 1 else 0)
  {
    var q, r := n / k, n % k;
    assert n == q * k + r && 0 <= r < k;
    if r + 1 < k {
      assert n + 1 == q * k + (r + 1);
    } else {
      assert n + 1 == (q + 1) * k;
    }
  }

  /** Multiples of 400 are multiples of 100, which are multiples of 4. */
  lemma DivisibleChain(y: int)
    ensures y % 400 == 0 ==> y % 100 == 0
    ensures y % 100 == 0 ==> y % 4 == 0
  {
    if y % 400 == 0 {
      var k := y / 400;
      assert y == 400 * k;
      assert y == 100 * (4 * k);
    }
    if y % 100 == 0 {
      var k := y / 100;
      assert y == 100 * k;
      assert y == 4 * (25 * k);
    }
  }

  lemma DaysBeforeYearStep(y: int)
    requires y >= 1
    ensures DaysBeforeYear(y + 1) == DaysBeforeYear(y) + DaysInYear(y)
  {
    var n := y - 1;
    DivStep(n, 4);
    DivStep(n, 100);
    DivStep(n, 400);
    DivisibleChain(y);
    var a4 := if y % 4 == 0 then 1 else 0;
    var a100 := if y % 100 == 0 then 1 else 0;
    var a400 := if y % 400 == 0 then 1 else 0;
    assert DaysInYear(y) == 365 + a4 - a100 + a400;
    assert (n + 1) * 365 == n * 365 + 365;
  }

  lemma {:induction false} DaysBeforeYearMono(y1: int, y2: int)
    requires 1 <= y1 < y2
    ensures DaysBeforeYear(y1) + DaysInYear(y1) <= DaysBeforeYear(y2)
    decreases y2 - y1
  {
    DaysBeforeYearStep(y1);
    if y1 + 1 < y2 {
      DaysBeforeYearMono(y1 + 1, y2);
    }
  }

  lemma {:induction false} DaysBeforeMonthMono(y: int, m1: int, m2: int)
    requires 1 <= m1 < m2 <= 12
    ensures DaysBeforeMonth(y, m1) + DaysInMonth(y, m1) <= DaysBeforeMonth(y, m2)
    decreases m2 - m1
  {
    if m1 + 1 < m2 {
      DaysBeforeMonthMono(y, m1 + 1, m2);
    }
  }

  lemma DaysBeforeDecember(y: int)
    ensures DaysBeforeMonth(y, 12) + 31 == DaysInYear(y)
  {
    var feb := DaysInMonth(y, 2);
    assert DaysBeforeMonth(y, 2) == 31;
    assert DaysBeforeMonth(y, 3) == 31 + feb;
    assert DaysBeforeMonth(y, 4) == 62 + feb;
    assert DaysBeforeMonth(y, 5) == 92 + feb;
    assert DaysBeforeMonth(y, 6) == 123 + feb;
    assert DaysBeforeMonth(y, 7) == 153 + feb;
    assert DaysBeforeMonth(y, 8) == 184 + feb;
    assert DaysBeforeMonth(y, 9) == 215 + feb;
    assert DaysBeforeMonth(y, 10) == 245 + feb;
    assert DaysBeforeMonth(y, 11) == 276 + feb;
  }

  lemma LastDayOfYear(t: Timestamp)
    requires Valid(t)
    ensures DaysBeforeMonth(t.year, t.month) + t.day <= DaysInYear(t.year)
  {
    DaysBeforeDecember(t.year);
    if t.month < 12 {
      DaysBeforeMonthMono(t.year, t.month, 12);
    }
  }

  predicate DateLess(a: Timestamp, b: Timestamp) {
    a.year < b.year
    || (a.year == b.year && a.month < b.month)
    || (a.year == b.year && a.month == b.month && a.day < b.day)
  }

  lemma OrdinalMono(a: Timestamp, b: Timestamp)
    requires Valid(a) && Valid(b) && DateLess(a, b)
    ensures Ordinal(a) < Ordinal(b)
  {
    if a.year < b.year {
      LastDayOfYear(a);
      DaysBeforeYearMono(a.year, b.year);
    } else if a.month < b.month {
      DaysBeforeMonthMono(a.year, a.month, b.month);
    }
  }

  lemma TimeOfDayOrder(a: Timestamp, b: Timestamp)
    requires Valid(a) && Valid(b)
    ensures 0 <= TimeOfDay(a) < MicrosPerDay
    ensures TimeOfDay(a) <= TimeOfDay(b) <==>
      LessEq(a.(year := 0, month := 1, day := 1), b.(year := 0, month := 1, day := 1))
    ensures TimeOfDay(a) == TimeOfDay(b) <==>
      a.hour == b.hour && a.minute == b.minute && a.second == b.second && a.micro == b.micro
  {
    MixedRadix(a.hour, a.minute, b.hour, b.minute, 60);
    var hmA, hmB := a.hour * 60 + a.minute, b.hour * 60 + b.minute;
    MixedRadix(hmA, a.second, hmB, b.second, 60);
    var hmsA, hmsB := hmA * 60 + a.second, b.hour * 60 * 60 + b.minute * 60 + b.second;
    assert hmsB == hmB * 60 + b.second;
    MixedRadix(hmsA, a.micro, hmsB, b.micro, 1000000);
    assert hmA <= 23 * 60 + 59;
    assert hmsA <= 86399;
    assert TimeOfDay(a) == hmsA * 1000000 + a.micro;
  }

  /**
   * For datetimes that exist, `a <= b` holds exactly when `a` is not a later
   * instant than `b`: the field-wise comparison is the order of instants.
   */
  lemma OrderMatchesMicros(a: Timestamp, b: Timestamp)
    requires Valid(a) && Valid(b)
    ensures LessEq(a, b) <==> Micros(a) <= Micros(b)
    ensures a == b <==> Micros(a) == Micros(b)
  {
    TimeOfDayOrder(a, b);
    TimeOfDayOrder(b, a);
    MixedRadix(Ordinal(a), TimeOfDay(a), Ordinal(b), TimeOfDay(b), MicrosPerDay);
    if DateLess(a, b) {
      OrdinalMono(a, b);
    } else if DateLess(b, a) {
      OrdinalMono(b, a);
    }
  }
}
