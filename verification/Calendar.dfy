/** The proleptic Gregorian calendar as a count of days from 1 January 1970, with the library
    calls `timegm` and `gmtime_r` that the firmware relies on, and the weekday formula of
    src/clock.c. */
module Calendar {

  // C's `/` and `%` truncate toward zero; Dafny's do not on negative operands.
  function CDiv(a: int, b: int): int
    requires b > 0
  {
    if a >= 0 then a / b else -((-a) / b)
  }

  function CMod(a: int, b: int): int
    requires b > 0
  {
    if a >= 0 then a % b else -((-a) % b)
  }

  // ----- the day count -----

  type Month = m: int | 1 <= m <= 12 witness 1

  predicate IsLeap(y: int) {
    y % 4 == 0 && (y % 100 != 0 || y % 400 == 0)
  }

  function YearLength(y: int): int {
    if IsLeap(y) then 366 else 365
  }

  function DaysInMonth(y: int, m: Month): int {
    if m == 2 then (if IsLeap(y) then 29 else 28)
    else if m == 4 || m == 6 || m == 9 || m == 11 then 30
    else 31
  }

  /** Days from 1 January of year `y` to the first of month `m`; `m == 13` is the year's end. */
  function DaysBeforeMonth(y: int, m: int): int
    requires 1 <= m <= 13
    decreases m
  {
    if m == 1 then 0 else DaysBeforeMonth(y, m - 1) + DaysInMonth(y, m - 1)
  }

  /** Days from 1 January 1970 to 1 January of year `y`: the sum of the lengths of the years between. */
  function YearStart(y: int): int
    decreases if y < 1970 then 1970 - y else y - 1970
  {
    if y == 1970 then 0
    else if y > 1970 then YearStart(y - 1) + YearLength(y - 1)
    else YearStart(y + 1) - YearLength(y)
  }

  predicate ValidDate(y: int, m: int, d: int) {
    1 <= m <= 12 && 1 <= d <= DaysInMonth(y, m)
  }

  function DayNumber(y: int, m: Month, d: int): int {
    YearStart(y) + DaysBeforeMonth(y, m) + d - 1
  }

  /** 0 is Sunday; day 0, 1 January 1970, was a Thursday. */
  function Weekday(y: int, m: Month, d: int): int {
    (DayNumber(y, m, d) + 4) % 7
  }

  // ----- timegm and gmtime_r -----

  /** The fields of C's `struct tm` that the clock uses, with C's offsets. */
  datatype Tm = Tm(year: int, mon: int, mday: int, hour: int, min: int, sec: int)

  predicate ValidTm(tm: Tm) {
    && ValidDate(tm.year + 1900, tm.mon + 1, tm.mday)
    && 0 <= tm.hour < 24 && 0 <= tm.min < 60 && 0 <= tm.sec < 60
  }

  function TimeGm(tm: Tm): int
    requires ValidTm(tm)
  {
    DayNumber(tm.year + 1900, tm.mon + 1, tm.mday) * 86400 + tm.hour * 3600 + tm.min * 60 + tm.sec
  }

  function YearFrom(day: int, y: int): (r: int)
    ensures YearStart(r) <= day < YearStart(r + 1)
    decreases if day < YearStart(y) then 1 else 0,
              if day < YearStart(y) then YearStart(y) - day else day - YearStart(y)
  {
    YearStep(y);
    YearStep(y - 1);
    if day < YearStart(y) then YearFrom(day, y - 1)
    else if day >= YearStart(y + 1) then YearFrom(day, y + 1)
    else y
  }

  function MonthFrom(y: int, dayOfYear: int, m: Month): (r: Month)
    requires DaysBeforeMonth(y, m) <= dayOfYear < YearLength(y)
    ensures DaysBeforeMonth(y, r) <= dayOfYear < DaysBeforeMonth(y, r + 1)
    decreases 12 - m
  {
    YearEnd(y);
    if dayOfYear < DaysBeforeMonth(y, m + 1) then m else MonthFrom(y, dayOfYear, m + 1)
  }

  function GmTime(t: int): (tm: Tm)
    ensures ValidTm(tm)
  {
    var day, rest := t / 86400, t % 86400;
    var y := YearFrom(day, 1970);
    YearStep(y);
    var m := MonthFrom(y, day - YearStart(y), 1);
    Tm(y - 1900, m - 1, day - YearStart(y) - DaysBeforeMonth(y, m) + 1,
       rest / 3600, rest / 60 % 60, rest % 60)
  }

  lemma YearStep(y: int)
    ensures YearStart(y + 1) == YearStart(y) + YearLength(y)
  {
  }

  lemma YearEnd(y: int)
    ensures DaysBeforeMonth(y, 1) == 0 && DaysBeforeMonth(y, 13) == YearLength(y)
    ensures DaysBeforeMonth(y, 3) == 59 + (if IsLeap(y) then 1 else 0)
    ensures DaysBeforeMonth(y, 9) == DaysBeforeMonth(y, 3) + 184
    ensures DaysBeforeMonth(y, 11) == DaysBeforeMonth(y, 3) + 245
  {
    assert DaysBeforeMonth(y, 3) == 59 + (if IsLeap(y) then 1 else 0);
    assert DaysBeforeMonth(y, 6) == DaysBeforeMonth(y, 3) + 92;
    assert DaysBeforeMonth(y, 9) == DaysBeforeMonth(y, 6) + 92;
    assert DaysBeforeMonth(y, 11) == DaysBeforeMonth(y, 9) + 61;
  }

  lemma {:induction false} YearStartMonotone(a: int, b: int)
    requires a <= b
    ensures YearStart(b) >= YearStart(a) + 365 * (b - a)
    decreases b - a
  {
    if a < b {
      YearStep(b - 1);
      YearStartMonotone(a, b - 1);
    }
  }

  lemma {:induction false} MonthMonotone(y: int, a: int, b: int)
    requires 1 <= a <= b <= 13
    ensures DaysBeforeMonth(y, b) >= DaysBeforeMonth(y, a) + 28 * (b - a)
    decreases b - a
  {
    if a < b {
      MonthMonotone(y, a, b - 1);
    }
  }

  lemma YearUnique(n: int, y: int, r: int)
    requires YearStart(y) <= n < YearStart(y + 1) && YearStart(r) <= n < YearStart(r + 1)
    ensures r == y
  {
    if r < y { YearStartMonotone(r + 1, y); }
    if y < r { YearStartMonotone(y + 1, r); }
  }

  lemma MonthUnique(y: int, n: int, m: Month, r: Month)
    requires DaysBeforeMonth(y, m) <= n < DaysBeforeMonth(y, m + 1)
    requires DaysBeforeMonth(y, r) <= n < DaysBeforeMonth(y, r + 1)
    ensures r == m
  {
    hide DaysBeforeMonth;
    if r < m { MonthMonotone(y, r + 1, m); }
    if m < r { MonthMonotone(y, m + 1, r); }
  }

  /** A valid date's day number lies within its own year, and within its own month. */
  lemma DateBracket(y: int, m: Month, d: int)
    requires ValidDate(y, m, d)
    ensures YearStart(y) <= DayNumber(y, m, d) < YearStart(y + 1)
    ensures DaysBeforeMonth(y, m) <= DayNumber(y, m, d) - YearStart(y) < DaysBeforeMonth(y, m + 1)
  {
    var upTo := DaysBeforeMonth(y, m + 1);
    assert upTo == DaysBeforeMonth(y, m) + DaysInMonth(y, m);
    MonthMonotone(y, m + 1, 13);
    MonthMonotone(y, 1, m);
    YearEnd(y);
    YearStep(y);
  }

  lemma DayAndTime(n: int, h: int, m: int, s: int)
    requires 0 <= h < 24 && 0 <= m < 60 && 0 <= s < 60
    ensures var t := n * 86400 + h * 3600 + m * 60 + s; var rest := t % 86400;
            t / 86400 == n && rest / 3600 == h && rest / 60 % 60 == m && rest % 60 == s
  {
    var t := n * 86400 + h * 3600 + m * 60 + s;
    assert t / 86400 == n;
    var rest := t % 86400;
    assert rest == h * 3600 + m * 60 + s;
    assert rest / 60 == h * 60 + m;
  }

  lemma SplitTime(rest: int)
    requires 0 <= rest < 86400
    ensures rest / 3600 * 3600 + rest / 60 % 60 * 60 + rest % 60 == rest
  {
    assert rest / 60 / 60 == rest / 3600;
  }

  /** `timegm` undoes `gmtime_r` at every instant. */
  lemma TimeGmOfGmTime(t: int)
    ensures TimeGm(GmTime(t)) == t
  {
    SplitTime(t % 86400);
  }

  /** `gmtime_r` undoes `timegm` on every valid broken-down time. */
  lemma GmTimeOfTimeGm(tm: Tm)
    requires ValidTm(tm)
    ensures GmTime(TimeGm(tm)) == tm
  {
    hide YearStart, DaysBeforeMonth, YearFrom, MonthFrom;
    var y, m := tm.year + 1900, tm.mon + 1;
    var n := DayNumber(y, m, tm.mday);
    DayAndTime(n, tm.hour, tm.min, tm.sec);
    DateBracket(y, m, tm.mday);
    YearUnique(n, y, YearFrom(n, 1970));
    YearEnd(y);
    YearStep(y);
    MonthUnique(y, n - YearStart(y), m, MonthFrom(y, n - YearStart(y), 1));
  }

  // ----- Zeller's congruence, as written in the source -----

  /** day_of_week: January and February count as months 13 and 14 of the year before. */
  function DayOfWeek(day: int, month: int, year: int): (r: int)
    ensures 0 <= r <= 6
  {
    var mm := if month < 3 then month + 12 else month;
    var yy := if month < 3 then year - 1 else year;
    var K := CMod(yy, 100);
    var J := CDiv(yy, 100);
    var h := CMod(day + CDiv(13 * (mm + 1), 5) + K + CDiv(K, 4) + CDiv(J, 4) + 5 * J, 7);
    CMod(h + 6, 7)
  }

  lemma {:induction false} YearStartClosed(y: int)
    ensures YearStart(y) == 365 * (y - 1970) + (y - 1) / 4 - (y - 1) / 100 + (y - 1) / 400 - 477
    decreases if y < 1970 then 1970 - y else y - 1970
  {
    if y > 1970 {
      YearStartClosed(y - 1);
      LeapCount(y - 1);
    } else if y < 1970 {
      YearStartClosed(y + 1);
      LeapCount(y);
    }
  }

  lemma LeapCount(y: int)
    ensures y / 4 - (y - 1) / 4 == (if y % 4 == 0 then 1 else 0)
    ensures y / 100 - (y - 1) / 100 == (if y % 100 == 0 then 1 else 0)
    ensures y / 400 - (y - 1) / 400 == (if y % 400 == 0 then 1 else 0)
    ensures y % 400 == 0 ==> y % 100 == 0
    ensures y % 100 == 0 ==> y % 4 == 0
  {
  }

  /** The month term of the formula is the cumulative month length, counted from March, modulo 7. */
  lemma MonthTerm(y: int, m: Month)
    ensures m >= 3 ==> DaysBeforeMonth(y, m) == 13 * (m + 1) / 5 + 28 * m - 94 + YearLength(y) - 365 + 59
    ensures m == 1 ==> DaysBeforeMonth(y, m) == 0
    ensures m == 2 ==> DaysBeforeMonth(y, m) == 31
  {
    YearEnd(y);
    assert DaysBeforeMonth(y, 6) == DaysBeforeMonth(y, 3) + 92;
    assert DaysBeforeMonth(y, 9) == DaysBeforeMonth(y, 3) + 184;
  }

  /** The formula computes the weekday of the day count, for every valid date from year 1 on
      (and from March of year 0). */
  lemma ZellerIsDayCount(y: int, m: Month, d: int)
    requires ValidDate(y, m, d)
    requires y >= 1 || (y == 0 && m >= 3)
    ensures DayOfWeek(d, m, y) == Weekday(y, m, d)
  {
    hide YearStart, DaysBeforeMonth;
    var mm := if m < 3 then m + 12 else m;
    var yy := if m < 3 then y - 1 else y;
    ShiftedYear(y, m);
    FormulaSum(d, mm, yy);
  }

  /** The sum inside the formula differs from the shifted day count by a multiple of 7 (and by 5). */
  lemma FormulaSum(d: int, mm: int, yy: int)
    requires d >= 1 && 3 <= mm <= 14 && yy >= 0
    ensures var J, K := yy / 100, yy % 100;
            var sum := d + 13 * (mm + 1) / 5 + K + K / 4 + J / 4 + 5 * J;
            var days := 365 * yy + yy / 4 - yy / 100 + yy / 400 + 13 * (mm + 1) / 5 + 28 * mm - 719562 + d - 1;
            (days + 4) % 7 == (sum % 7 + 6) % 7
  {
    var J, K := yy / 100, yy % 100;
    Centuries(yy);
    var sum := d + 13 * (mm + 1) / 5 + K + K / 4 + J / 4 + 5 * J;
    var days := 365 * yy + yy / 4 - yy / 100 + yy / 400 + 13 * (mm + 1) / 5 + 28 * mm - 719562 + d - 1;
    assert days + 4 == sum + 6 + 7 * (52 * yy + 17 * J - 102795 + 4 * mm);
    Mod7(sum, 52 * yy + 17 * J - 102795 + 4 * mm);
  }

  lemma Mod7(sum: int, k: int)
    ensures (sum + 6 + 7 * k) % 7 == (sum % 7 + 6) % 7
  {
    var q, r := sum / 7, sum % 7;
    assert sum + 6 + 7 * k == 7 * (q + k) + (r + 6);
    if r > 0 {
      assert sum + 6 + 7 * k == 7 * (q + k + 1) + (r - 1);
    }
  }

  /** The day count regrouped by the formula's year, which starts in March. */
  lemma ShiftedYear(y: int, m: Month)
    ensures var mm := if m < 3 then m + 12 else m; var yy := if m < 3 then y - 1 else y;
            YearStart(y) + DaysBeforeMonth(y, m)
            == 365 * yy + yy / 4 - yy / 100 + yy / 400 + 13 * (mm + 1) / 5 + 28 * mm - 719562
  {
    YearStartClosed(y);
    MonthTerm(y, m);
    LeapCount(y);
  }

  lemma Centuries(y: int)
    requires y >= 0
    ensures y / 4 == 25 * (y / 100) + y % 100 / 4
    ensures y / 400 == y / 100 / 4
  {
  }
}
