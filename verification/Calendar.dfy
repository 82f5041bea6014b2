/** The proleptic Gregorian calendar of datetime and of the ECMAScript Date object. */
module Calendar {
  // 86_400 seconds in a day, 1_000_000 microseconds in a second, 86_400_000_000 microseconds in a day.

  datatype Date = Date(year: int, month: int, day: int)
  datatype Time = Time(hour: int, minute: int, second: int, micro: int)

  predicate IsLeap(y: int) { y % 4 == 0 && (y % 100 != 0 || y % 400 == 0) }

  function DaysInMonth(y: int, m: int): int {
    if m == 2 then (if IsLeap(y) then 29 else 28)
    else if m == 4 || m == 6 || m == 9 || m == 11 then 30
    else 31
  }

  /** datetime's own domain: no year 0. */
  predicate ValidDate(d: Date) {
    1 <= d.year && 1 <= d.month <= 12 && 1 <= d.day <= DaysInMonth(d.year, d.month)
  }

  predicate ValidTime(t: Time) {
    0 <= t.hour < 24 && 0 <= t.minute < 60 && 0 <= t.second < 60 && 0 <= t.micro < 1_000_000
  }

  /** Days in all years before y, counted year by year from year 1. */
  function DaysBeforeYear(y: int): int
    requires y >= 1
  {
    if y == 1 then 0 else DaysBeforeYear(y - 1) + (if IsLeap(y - 1) then 366 else 365)
  }

  /** The closed form that datetime and ECMAScript compute with. */
  lemma {:induction false} DaysBeforeYearClosed(y: int)
    requires y >= 1
    ensures DaysBeforeYear(y) == (y - 1) * 365 + (y - 1) / 4 - (y - 1) / 100 + (y - 1) / 400
  {
    if y > 1 {
      DaysBeforeYearClosed(y - 1);
      LeapCount(y - 2);
    }
  }

  lemma LeapCount(p: int)
    ensures (p + 1) / 4 - p / 4 == if (p + 1) % 4 == 0 then 1 else 0
    ensures (p + 1) / 100 - p / 100 == if (p + 1) % 100 == 0 then 1 else 0
    ensures (p + 1) / 400 - p / 400 == if (p + 1) % 400 == 0 then 1 else 0
    ensures ((p + 1) % 400 == 0 ==> (p + 1) % 100 == 0) && ((p + 1) % 100 == 0 ==> (p + 1) % 4 == 0)
  {
  }

  function DaysBeforeMonth(y: int, m: int): int
    requires 1 <= m <= 13
    decreases m
  {
    if m == 1 then 0 else DaysBeforeMonth(y, m - 1) + DaysInMonth(y, m - 1)
  }

  /** Day number; 0001-01-01 is day 1. */
  function Ordinal(d: Date): int
    requires 1 <= d.year && 1 <= d.month <= 12
  {
    DaysBeforeYear(d.year) + DaysBeforeMonth(d.year, d.month) + d.day
  }

  function Seconds(t: Time): int { t.hour * 3600 + t.minute * 60 + t.second }

  /** Microseconds since midnight. */
  function OfDay(t: Time): int { Seconds(t) * 1_000_000 + t.micro }

  /** Microseconds on the calendar's own axis, without offset or leap seconds. */
  function Micros(d: Date, t: Time): int
    requires 1 <= d.year && 1 <= d.month <= 12
  {
    Ordinal(d) * 86_400_000_000 + OfDay(t)
  }

  lemma YearLength(y: int)
    requires y >= 1
    ensures DaysBeforeYear(y + 1) == DaysBeforeYear(y) + DaysBeforeMonth(y, 13)
    ensures DaysBeforeMonth(y, 13) == if IsLeap(y) then 366 else 365
  {
    assert DaysBeforeMonth(y, 4) == DaysInMonth(y, 2) + 62;
    assert DaysBeforeMonth(y, 7) == DaysInMonth(y, 2) + 153;
    assert DaysBeforeMonth(y, 10) == DaysInMonth(y, 2) + 245;
    assert DaysBeforeMonth(y, 13) == DaysInMonth(y, 2) + 337;
  }

  lemma {:induction false} YearsAscend(a: int, b: int)
    requires 1 <= a <= b
    ensures DaysBeforeYear(a) <= DaysBeforeYear(b)
    decreases b - a
  {
    if a < b {
      YearLength(a);
      YearsAscend(a + 1, b);
    }
  }

  lemma {:induction false} MonthsAscend(y: int, a: int, b: int)
    requires 1 <= a <= b <= 13
    ensures DaysBeforeMonth(y, a) <= DaysBeforeMonth(y, b)
    decreases b
  {
    if a < b {
      MonthsAscend(y, a, b - 1);
    }
  }

  predicate Earlier(a: Date, b: Date) {
    a.year < b.year
    || (a.year == b.year && (a.month < b.month || (a.month == b.month && a.day < b.day)))
  }

  lemma DayInYear(d: Date)
    requires ValidDate(d)
    ensures DaysBeforeYear(d.year) < Ordinal(d) <= DaysBeforeYear(d.year + 1)
  {
    YearLength(d.year);
    MonthsAscend(d.year, 1, d.month);
    MonthsAscend(d.year, d.month + 1, 13);
  }

  /** Field order of valid dates is day-number order, so day numbers identify dates. */
  lemma OrdinalOrder(a: Date, b: Date)
    requires ValidDate(a) && ValidDate(b)
    ensures Ordinal(a) < Ordinal(b) <==> Earlier(a, b)
    ensures Ordinal(a) == Ordinal(b) <==> a == b
  {
    OrdinalAscends(a, b);
    OrdinalAscends(b, a);
  }

  lemma OrdinalAscends(a: Date, b: Date)
    requires ValidDate(a) && ValidDate(b)
    ensures Earlier(a, b) ==> Ordinal(a) < Ordinal(b)
  {
    if a.year < b.year {
      DayInYear(a);
      DayInYear(b);
      YearsAscend(a.year + 1, b.year);
    } else if a.year == b.year && a.month < b.month {
      MonthsAscend(a.year, a.month + 1, b.month);
    }
  }

  lemma EnoughYears(n: int)
    requires n >= 1
    ensures n <= DaysBeforeYear(n / 365 + 2)
  {
    DaysBeforeYearClosed(n / 365 + 2);
  }

  /** The year of a day number: the largest year that starts on or before it. */
  function YearOf(n: int, from: int := n / 365 + 1): (y: int)
    requires n >= 1 && from >= 1 && n <= DaysBeforeYear(from + 1)
    ensures y >= 1
    ensures DaysBeforeYear(y) < n <= DaysBeforeYear(y + 1)
    decreases from
  {
    if from == 1 || DaysBeforeYear(from) < n then from else YearOf(n, from - 1)
  }

  function MonthOf(y: int, k: int, from: int := 12): (m: int)
    requires 1 <= from <= 12 && 1 <= k <= DaysBeforeMonth(y, from + 1)
    ensures 1 <= m <= 12 && DaysBeforeMonth(y, m) < k <= DaysBeforeMonth(y, m + 1)
    decreases from
  {
    if DaysBeforeMonth(y, from) < k then from else MonthOf(y, k, from - 1)
  }

  /** The date of a day number. */
  function FromOrdinal(n: int): (d: Date)
    requires n >= 1
    ensures ValidDate(d) && Ordinal(d) == n
  {
    EnoughYears(n);
    var y := YearOf(n);
    YearLength(y);
    var k := n - DaysBeforeYear(y);
    var m := MonthOf(y, k);
    Date(y, m, k - DaysBeforeMonth(y, m))
  }

  /** The clock time of a microsecond count within a day. */
  function ClockOf(m: int): (t: Time)
    ensures ValidTime(t) && OfDay(t) == m % 86_400_000_000
  {
    var r := m % 86_400_000_000;
    var s := r / 1_000_000;
    Time(s / 3600, s % 3600 / 60, s % 60, r % 1_000_000)
  }

  lemma ClockUnique(s: Time, t: Time)
    requires ValidTime(s) && ValidTime(t) && OfDay(s) == OfDay(t)
    ensures s == t
  {
  }

  function DateOf(m: int): (d: Date)
    requires m >= 86_400_000_000
    ensures ValidDate(d) && Ordinal(d) == m / 86_400_000_000
  {
    FromOrdinal(m / 86_400_000_000)
  }

  lemma DayAndRest(n: int, r: int)
    requires 0 <= r < 86_400_000_000
    ensures (n * 86_400_000_000 + r) / 86_400_000_000 == n
    ensures (n * 86_400_000_000 + r) % 86_400_000_000 == r
  {
  }

  lemma MicrosSplit(d: Date, t: Time)
    requires ValidDate(d) && ValidTime(t)
    ensures Micros(d, t) / 86_400_000_000 == Ordinal(d) >= 1
    ensures Micros(d, t) % 86_400_000_000 == OfDay(t)
  {
    DayInYear(d);
    YearsAscend(1, d.year);
    DayAndRest(Ordinal(d), OfDay(t));
  }

  /** Splitting a count into date and clock and joining them again, both ways round. */
  lemma FieldsRoundTrip(d: Date, t: Time, m: int)
    requires ValidDate(d) && ValidTime(t)
    ensures Micros(d, t) >= 86_400_000_000
    ensures DateOf(Micros(d, t)) == d && ClockOf(Micros(d, t)) == t
    ensures m >= 86_400_000_000 ==> Micros(DateOf(m), ClockOf(m)) == m
  {
    MicrosSplit(d, t);
    OrdinalOrder(DateOf(Micros(d, t)), d);
    ClockUnique(ClockOf(Micros(d, t)), t);
  }

  /** Date-times are ordered by day and then by clock, as their counts are. */
  lemma MicrosOrder(d: Date, t: Time, d': Date, t': Time)
    requires ValidDate(d) && ValidTime(t) && ValidDate(d') && ValidTime(t')
    ensures Micros(d, t) < Micros(d', t') <==> Earlier(d, d') || (d == d' && OfDay(t) < OfDay(t'))
  {
    OrdinalOrder(d, d');
    MicrosCompare(Ordinal(d), OfDay(t), Ordinal(d'), OfDay(t'));
  }

  lemma MicrosCompare(n: int, r: int, n': int, r': int)
    requires 0 <= r < 86_400_000_000 && 0 <= r' < 86_400_000_000
    ensures n * 86_400_000_000 + r < n' * 86_400_000_000 + r' <==> n < n' || (n == n' && r < r')
  {
  }
}
