/** The proleptic Gregorian calendar as JavaScript's `Date` uses it, and the
    normalisation `new Date(year, monthIndex, day)` applies to out-of-range fields. */
module Calendar {

  predicate IsLeapYear(y: int)
  {
    (y % 4 == 0 && y % 100 != 0) || y % 400 == 0
  }

  /** Length of month m (1 = January) of year y. */
  function DaysInMonth(y: int, m: int): (n: int)
    requires 1 <= m <= 12
    ensures 28 <= n <= 31
    ensures n == 31 <==> m in {1, 3, 5, 7, 8, 10, 12}
    ensures n == 30 <==> m in {4, 6, 9, 11}
    ensures m == 2 ==> (n == 29 <==> IsLeapYear(y))
  {
    if m == 2 then (if IsLeapYear(y) then 29 else 28)
    else if m == 4 || m == 6 || m == 9 || m == 11 then 30
    else 31
  }

  /** A calendar date as `Date`'s getters report it: month is 0-based. */
  datatype Date = Date(year: int, month: int, day: int)

  /** A month counted from year 0, for comparing months. */
  function MonthIndex(d: Date): int
  {
    d.year * 12 + d.month
  }

  function NextMonth(y: int, m: int): Date
  {
    if m == 11 then Date(y + 1, 0, 1) else Date(y, m + 1, 1)
  }

  function PrevMonth(y: int, m: int): Date
  {
    if m == 0 then Date(y - 1, 11, 1) else Date(y, m - 1, 1)
  }

  /** The date d - 1 days after the first of month m (0-based) of year y, for d >= 1. */
  function Forward(y: int, m: int, d: int): (r: Date)
    requires 0 <= m < 12 && d >= 1
    ensures 0 <= r.month < 12 && 1 <= r.day <= DaysInMonth(r.year, r.month + 1)
    ensures MonthIndex(r) >= y * 12 + m
    ensures MonthIndex(r) == y * 12 + m <==> d <= DaysInMonth(y, m + 1)
    decreases d
  {
    var n := DaysInMonth(y, m + 1);
    if d <= n then Date(y, m, d)
    else
      var next := NextMonth(y, m);
      Forward(next.year, next.month, d - n)
  }

  /** The date 1 - d days before the first of month m (0-based) of year y, for d <= 0. */
  function Backward(y: int, m: int, d: int): (r: Date)
    requires 0 <= m < 12 && d <= 0
    ensures 0 <= r.month < 12 && 1 <= r.day <= DaysInMonth(r.year, r.month + 1)
    ensures MonthIndex(r) < y * 12 + m
    decreases -d
  {
    var prev := PrevMonth(y, m);
    var d' := d + DaysInMonth(prev.year, prev.month + 1);
    if d' >= 1 then Date(prev.year, prev.month, d')
    else Backward(prev.year, prev.month, d')
  }

  /** `new Date(y, m, d)` on integer fields, before the two-digit-year rule:
      the month carried into the year, then the day counted from the first of
      that month, forwards or backwards. */
  function Normalize(y: int, m: int, d: int): (r: Date)
    ensures 0 <= r.month < 12 && 1 <= r.day <= DaysInMonth(r.year, r.month + 1)
  {
    var y', m' := y + m / 12, m % 12;
    if d >= 1 then Forward(y', m', d) else Backward(y', m', d)
  }

  /** The year `new Date(y, ...)` uses: 0..99 mean 1900..1999. */
  function FullYear(y: int): int
  {
    if 0 <= y <= 99 then 1900 + y else y
  }

  /** `new Date(y, m, d)` on integer fields. */
  function MakeDate(y: int, m: int, d: int): Date
  {
    Normalize(FullYear(y), m, d)
  }

  /** Local dates that lie inside `Date`'s range of +-8.64e15 ms in every time
      zone; the first and last day of the range depend on the zone. */
  predicate InRange(d: Date)
  {
    MonthIndex(d) * 32 + d.day >= MonthIndex(Date(-271821, 3, 21)) * 32 + 21
    && MonthIndex(d) * 32 + d.day <= MonthIndex(Date(275760, 8, 12)) * 32 + 12
  }

  /** Normalisation leaves a date alone exactly when its fields are in range. */
  lemma NormalizeFixed(y: int, m: int, d: int)
    ensures Normalize(y, m, d) == Date(y, m, d)
        <==> 0 <= m < 12 && 1 <= d <= DaysInMonth(y, m + 1)
  {
    if 0 <= m < 12 {
      assert y + m / 12 == y && m % 12 == m;
    }
  }

  /** A normalised date that shows the requested month and day also shows the
      requested year: a day can push the date at most one month away. */
  lemma NormalizeKeepsYear(y: int, m: int, d: int, y2: int)
    requires Normalize(y, m, d) == Date(y2, m, d)
    ensures y2 == y
  {
    assert 0 <= m < 12 && 1 <= d <= 31;
    assert y + m / 12 == y && m % 12 == m;
    var n := DaysInMonth(y, m + 1);
    if d > n {
      assert false;
    }
  }

  /** Every date of the years 100 to 275759 lies inside the range. */
  lemma InRangeYears(d: Date)
    requires 100 <= d.year <= 275759 && 0 <= d.month < 12 && 1 <= d.day <= 31
    ensures InRange(d)
  {
  }

  /** `new Date(y, m + 1, 0)` is the last day of month m. */
  lemma DayZeroIsLastDay(y: int, m: int)
    requires 0 <= m < 12
    ensures Normalize(y, m + 1, 0) == Date(y, m, DaysInMonth(y, m + 1))
  {
    var y', m' := y + (m + 1) / 12, (m + 1) % 12;
    if m == 11 {
      assert y' == y + 1 && m' == 0;
    } else {
      assert y' == y && m' == m + 1;
    }
  }

  /** Weekday names in Russian, indexed like `getDay()`: 0 is Sunday. */
  const WeekdayNames: seq<string> :=
    ["Воскресенье", "Понедельник", "Вторник", "Среда", "Четверг", "Пятница", "Суббота"]

  /** No two weekdays share a name: the first two letters already differ. */
  lemma WeekdayNamesDistinct(i: int, j: int)
    requires 0 <= i < 7 && 0 <= j < 7 && i != j
    ensures WeekdayNames[i] != WeekdayNames[j]
  {
    var w := WeekdayNames;
    assert w[0][0] == 'В' && w[0][1] == 'о';
    assert w[1][0] == 'П' && w[1][1] == 'о';
    assert w[2][0] == 'В' && w[2][1] == 'т';
    assert w[3][0] == 'С' && w[3][1] == 'р';
    assert w[4][0] == 'Ч' && w[4][1] == 'е';
    assert w[5][0] == 'П' && w[5][1] == 'я';
    assert w[6][0] == 'С' && w[6][1] == 'у';
    assert w[i][0] != w[j][0] || w[i][1] != w[j][1];
  }
}
