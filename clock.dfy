/**
 * Wall-clock time as the store and the commands see it. A timestamp is an integer count of
 * nanoseconds since 1970-01-01 00:00 on the local wall clock, so a calendar day is a block of
 * NsPerDay consecutive timestamps. The civil date of a day is found by walking month lengths
 * (Gregorian leap years) from January 1970, which makes the month of a timestamp visibly
 * monotone. A month is identified by its key year * 12 + (month - 1).
 */
module Clock {
  import opened Text

  const NsPerMinute: int := 60_000_000_000
  const NsPerHour: int := 60 * NsPerMinute
  const NsPerDay: int := 24 * NsPerHour
  const NsPerWeek: int := 7 * NsPerDay

  /** Days since 1970-01-01 (floored, so instants before the epoch fall on negative days). */
  function DayIndex(ts: int): int
  {
    ts / NsPerDay
  }

  /** time.Date(y, m, d, 0, 0, 0, 0, loc): the first instant of the day ts falls on. */
  function Midnight(ts: int): (r: int)
    ensures r <= ts < r + NsPerDay
    ensures DayIndex(r) == DayIndex(ts)
  {
    DayIndex(ts) * NsPerDay
  }

  lemma DayIndexMonotone(a: int, b: int)
    requires a <= b
    ensures DayIndex(a) <= DayIndex(b)
  {
    assert Midnight(a) <= b < Midnight(b) + NsPerDay;
  }

  /** time.Weekday: 0 for Sunday through 6 for Saturday; 1970-01-01 was a Thursday. */
  function Weekday(ts: int): (w: int)
    ensures 0 <= w < 7
  {
    (DayIndex(ts) + 4) % 7
  }

  /** The epoch day 1970-01-01 is a Thursday (4), and 1970-01-04 the first Sunday (0). */
  lemma WeekdayEpoch()
    ensures Weekday(0) == 4 && Weekday(3 * NsPerDay) == 0
  {
  }

  /** Every instant of a day has the weekday of its midnight, the next day has the next weekday, and a week later the same. */
  lemma WeekdaySteps(ts: int)
    ensures Weekday(ts) == Weekday(Midnight(ts))
    ensures Weekday(ts + NsPerDay) == (Weekday(ts) + 1) % 7
    ensures Weekday(ts + NsPerWeek) == Weekday(ts)
  {
    DayIndexShift(ts, 1);
    DayIndexShift(ts, 7);
    SevenStep(DayIndex(ts) + 4);
  }

  lemma SevenStep(x: int)
    ensures (x + 1) % 7 == (x % 7 + 1) % 7 && (x + 7) % 7 == x % 7
  {
    var q, r := x / 7, x % 7;
    assert x == 7 * q + r && 0 <= r < 7;
    assert x + 7 == 7 * (q + 1) + r;
    if r < 6 {
      assert x + 1 == 7 * q + (r + 1);
    } else {
      assert x + 1 == 7 * (q + 1) + 0;
    }
  }

  /** n days later is n day indices later. */
  lemma DayIndexShift(ts: int, n: int)
    ensures DayIndex(ts + n * NsPerDay) == DayIndex(ts) + n
  {
    var q, r := DayIndex(ts), ts % NsPerDay;
    assert ts == q * NsPerDay + r && 0 <= r < NsPerDay;
    assert ts + n * NsPerDay == (q + n) * NsPerDay + r;
  }

  const EpochMonth: int := 1970 * 12

  function YearOf(monthKey: int): int
  {
    monthKey / 12
  }

  /** 1 for January through 12 for December. */
  function MonthOf(monthKey: int): (m: int)
    ensures 1 <= m <= 12
  {
    monthKey % 12 + 1
  }

  predicate IsLeapYear(y: int)
  {
    y % 4 == 0 && (y % 100 != 0 || y % 400 == 0)
  }

  function MonthLength(monthKey: int): (n: int)
    ensures 28 <= n <= 31
  {
    var m := MonthOf(monthKey);
    if m == 2 then (if IsLeapYear(YearOf(monthKey)) then 29 else 28)
    else if m == 4 || m == 6 || m == 9 || m == 11 then 30
    else 31
  }

  /** A civil date: the month's key and the day of the month (1-based). */
  datatype CivilDate = CivilDate(monthKey: int, day: int)

  /** The date of day d, walking forward from the month monthKey that starts on day first. */
  function Forward(monthKey: int, first: int, d: int): (c: CivilDate)
    requires first <= d
    ensures monthKey <= c.monthKey
    ensures 1 <= c.day <= MonthLength(c.monthKey)
    decreases d - first
  {
    if d < first + MonthLength(monthKey) then CivilDate(monthKey, d - first + 1)
    else Forward(monthKey + 1, first + MonthLength(monthKey), d)
  }

  /** The date of day d, walking backward from the month monthKey that ends just before day next. */
  function Backward(monthKey: int, next: int, d: int): (c: CivilDate)
    requires d < next
    ensures c.monthKey <= monthKey
    ensures 1 <= c.day <= MonthLength(c.monthKey)
    decreases next - d
  {
    var first := next - MonthLength(monthKey);
    if first <= d then CivilDate(monthKey, d - first + 1)
    else Backward(monthKey - 1, first, d)
  }

  function CivilOfDay(d: int): (c: CivilDate)
    ensures 1 <= c.day <= MonthLength(c.monthKey)
    ensures d >= 0 <==> c.monthKey >= EpochMonth
  {
    if d >= 0 then Forward(EpochMonth, 0, d) else Backward(EpochMonth - 1, 0, d)
  }

  /** The key of the calendar month ts falls in (what `ts.Format("2006-01")` names). */
  function MonthKey(ts: int): int
  {
    CivilOfDay(DayIndex(ts)).monthKey
  }

  lemma {:induction false} ForwardMonotone(monthKey: int, first: int, d1: int, d2: int)
    requires first <= d1 <= d2
    ensures Forward(monthKey, first, d1).monthKey <= Forward(monthKey, first, d2).monthKey
    decreases d2 - first
  {
    if d1 >= first + MonthLength(monthKey) {
      ForwardMonotone(monthKey + 1, first + MonthLength(monthKey), d1, d2);
    }
  }

  lemma {:induction false} BackwardMonotone(monthKey: int, next: int, d1: int, d2: int)
    requires d1 <= d2 < next
    ensures Backward(monthKey, next, d1).monthKey <= Backward(monthKey, next, d2).monthKey
    decreases next - d1
  {
    var first := next - MonthLength(monthKey);
    if d2 < first {
      BackwardMonotone(monthKey - 1, first, d1, d2);
    }
  }

  /** A later instant never lies in an earlier month. */
  lemma MonthKeyMonotone(a: int, b: int)
    requires a <= b
    ensures MonthKey(a) <= MonthKey(b)
  {
    var da, db := DayIndex(a), DayIndex(b);
    DayIndexMonotone(a, b);
    if 0 <= da {
      ForwardMonotone(EpochMonth, 0, da, db);
    } else if db < 0 {
      BackwardMonotone(EpochMonth - 1, 0, da, db);
    }
  }

  /** Go's "2006" layout element: at least four digits, a minus sign before a year below zero. */
  function YearString(y: int): (r: string)
    ensures |r| >= 4
  {
    if y < 0 then "-" + Padded(-y, 4) else Padded(y, 4)
  }

  /** `Format("2006-01")` of any instant in the month. */
  function MonthString(monthKey: int): string
  {
    YearString(YearOf(monthKey)) + "-" + Padded(MonthOf(monthKey), 2)
  }

  /** `Format("2006-01-02")`. */
  function DateString(ts: int): string
  {
    var c := CivilOfDay(DayIndex(ts));
    MonthString(c.monthKey) + "-" + Padded(c.day, 2)
  }

  /** `Format("15:04")`: two-digit hour and minute of the day. */
  function ClockString(ts: int): (r: string)
    ensures |r| == 5 && r[2] == ':'
    ensures IsDigit(r[0]) && IsDigit(r[1]) && IsDigit(r[3]) && IsDigit(r[4])
    ensures var h, m := DecimalValue(r[..2]), DecimalValue(r[3..]);
      && h < 24 && m < 60
      && Midnight(ts) + h * NsPerHour + m * NsPerMinute <= ts < Midnight(ts) + h * NsPerHour + (m + 1) * NsPerMinute
  {
    var sinceMidnight := ts - Midnight(ts);
    TimeOfDay(sinceMidnight);
    var hh, mm := Padded(sinceMidnight / NsPerHour, 2), Padded(sinceMidnight % NsPerHour / NsPerMinute, 2);
    ColonJoined(hh, mm);
    hh + ":" + mm
  }

  /** The hour and the minute of an offset into a day, and the minute of the day it lies in. */
  lemma TimeOfDay(sinceMidnight: int)
    requires 0 <= sinceMidnight < NsPerDay
    ensures var h, m := sinceMidnight / NsPerHour, sinceMidnight % NsPerHour / NsPerMinute;
      && 0 <= h < 24 && 0 <= m < 60
      && h * NsPerHour + m * NsPerMinute <= sinceMidnight < h * NsPerHour + (m + 1) * NsPerMinute
  {
  }

  lemma ColonJoined(hh: string, mm: string)
    requires |hh| == 2 && |mm| == 2
    ensures var r := hh + ":" + mm; r[..2] == hh && r[2] == ':' && r[3..] == mm
  {
    var r := hh + ":" + mm;
    assert r[..2] == hh;
    assert r[3..] == mm;
  }
}
