/** The daylight saving rules of src/clock.c: nth_weekday, get_dst_bounds and time_is_dst.
    The bounds are instants compared directly with UTC, as the code does. */
module DaylightSaving {
  import opened Calendar

  datatype DstRule = None | NA | EU | AU | NZ | CL | IL

  /** The n-th (n > 0) or the last (otherwise) given weekday of a month. */
  function NthWeekday(n: int, target: int, month: Month, year: int): int {
    var first := 1 + CMod(target - DayOfWeek(1, month, year) + 7, 7);
    if n > 0 then first + (n - 1) * 7
    else if first + 28 > DaysInMonth(year, month) then first + 28 - 7
    else first + 28
  }

  function At(year: int, mon: int, mday: int, hour: int, min: int): Tm {
    Tm(year - 1900, mon, mday, hour, min, 0)
  }

  /** The two broken-down times that get_dst_bounds fills in for a year. */
  function DstTms(rule: DstRule, year: int): (r: (Tm, Tm))
    requires rule != None
  {
    match rule
    case NA => (At(year, 2, NthWeekday(2, 0, 3, year), 2, 0), At(year, 10, NthWeekday(1, 0, 11, year), 2, 0))
    case EU => (At(year, 2, NthWeekday(-1, 0, 3, year), 1, 0), At(year, 9, NthWeekday(-1, 0, 10, year), 1, 0))
    case AU => (At(year, 9, NthWeekday(1, 0, 10, year), 2, 0), At(year, 3, NthWeekday(1, 0, 4, year), 3, 0))
    case NZ => (At(year, 8, NthWeekday(-1, 0, 9, year), 2, 0), At(year, 3, NthWeekday(1, 0, 4, year), 3, 0))
    case CL => (At(year, 8, NthWeekday(1, 6, 9, year), 23, 59), At(year, 3, NthWeekday(1, 6, 4, year), 23, 59))
    case IL => (At(year, 2, NthWeekday(-1, 0, 3, year) - 2, 2, 0), At(year, 9, NthWeekday(-1, 0, 10, year), 2, 0))
  }

  function DstBounds(rule: DstRule, year: int): (int, int) {
    if rule == None then (0, 0)
    else
      DstTmsValid(rule, year);
      (TimeGm(DstTms(rule, year).0), TimeGm(DstTms(rule, year).1))
  }

  function TimeIsDst(utcNow: int, rule: DstRule): bool {
    if rule == None then false
    else
      var year := GmTime(utcNow).year + 1900;
      var (start, end) := DstBounds(rule, year);
      if start < end then start <= utcNow < end
      else start <= utcNow || utcNow < end
  }

  function LocalTime(utcNow: int, tzOffsetMins: int, rule: DstRule): int {
    utcNow + tzOffsetMins * 60 + (if TimeIsDst(utcNow, rule) then 3600 else 0)
  }

  // ----- nth_weekday -----

  /** How many of the days 1..upTo of a month fall on weekday `w`. */
  ghost function WeekdayCount(y: int, m: Month, w: int, upTo: nat): nat {
    if upTo == 0 then 0
    else WeekdayCount(y, m, w, upTo - 1) + (if Weekday(y, m, upTo) == w then 1 else 0)
  }

  lemma FirstInWeekOne(target: int, month: Month, year: int)
    requires 0 <= target <= 6
    ensures 1 <= NthWeekday(1, target, month, year) <= 7
    ensures forall n :: n > 0 ==> NthWeekday(n, target, month, year) == NthWeekday(1, target, month, year) + 7 * (n - 1)
  {
  }

  lemma WeekLater(y: int, m: Month, a: int, b: int)
    ensures Weekday(y, m, a) == Weekday(y, m, b) <==> (b - a) % 7 == 0
  {
    SameResidue(DayNumber(y, m, a) + 4, DayNumber(y, m, b) + 4);
  }

  lemma NextWeek(k: int)
    ensures k % 7 == 0 ==> k / 7 == (k - 1) / 7 + 1
    ensures k % 7 != 0 ==> k / 7 == (k - 1) / 7
    ensures -7 < k < 0 ==> k % 7 != 0
  {
  }

  lemma SameResidue(a: int, b: int)
    ensures a % 7 == b % 7 <==> (b - a) % 7 == 0
  {
  }

  lemma {:induction false} CountByWeeks(y: int, m: Month, w: int, first: nat, upTo: nat)
    requires 1 <= first <= 7 && Weekday(y, m, first) == w
    ensures WeekdayCount(y, m, w, upTo) == if upTo < first then 0 else (upTo - first) / 7 + 1
  {
    if upTo > 0 {
      CountByWeeks(y, m, w, first, upTo - 1);
      WeekLater(y, m, first, upTo);
      NextWeek(upTo - first);
    }
  }

  lemma FirstFallsOnTarget(y: int, m: Month, w: int)
    requires 0 <= w <= 6
    requires y >= 1 || (y == 0 && m >= 3)
    ensures Weekday(y, m, NthWeekday(1, w, m, y)) == w
  {
    ZellerIsDayCount(y, m, 1);
    FirstResidue(DayNumber(y, m, 1) + 4, w);
  }

  lemma FirstResidue(base: int, w: int)
    requires 0 <= w <= 6
    ensures (base + CMod(w - base % 7 + 7, 7)) % 7 == w
  {
  }

  lemma NthFromFirst(n: int, first: int, w: int, m: Month, y: int)
    requires 1 <= n <= 4 && 1 <= first <= 7 && Weekday(y, m, first) == w
    ensures var d := first + 7 * (n - 1);
            ValidDate(y, m, d) && Weekday(y, m, d) == w && WeekdayCount(y, m, w, d) == n
  {
    CountByWeeks(y, m, w, first, first + 7 * (n - 1));
    WeekLater(y, m, first, first + 7 * (n - 1));
  }

  lemma LastFromFirst(first: int, d: int, w: int, m: Month, y: int)
    requires 1 <= first <= 7 && Weekday(y, m, first) == w
    requires d == if first + 28 > DaysInMonth(y, m) then first + 21 else first + 28
    ensures ValidDate(y, m, d) && Weekday(y, m, d) == w
    ensures forall e :: d < e <= DaysInMonth(y, m) ==> Weekday(y, m, e) != w
  {
    WeekLater(y, m, first, d);
    forall e | d < e <= DaysInMonth(y, m) ensures Weekday(y, m, e) != w {
      WeekLater(y, m, first, e);
    }
  }

  /** For n in 1..4 the result is the n-th date of that weekday in the month. */
  lemma NthWeekdayIsNth(n: int, w: int, m: Month, y: int)
    requires 1 <= n <= 4 && 0 <= w <= 6
    requires y >= 1 || (y == 0 && m >= 3)
    ensures var d := NthWeekday(n, w, m, y);
            ValidDate(y, m, d) && Weekday(y, m, d) == w && WeekdayCount(y, m, w, d) == n
  {
    hide *;
    FirstInWeekOne(w, m, y);
    FirstFallsOnTarget(y, m, w);
    NthFromFirst(n, NthWeekday(1, w, m, y), w, m, y);
  }

  /** For n = -1 it is the last date of that weekday inside the month. */
  lemma LastWeekdayIsLast(w: int, m: Month, y: int)
    requires 0 <= w <= 6
    requires y >= 1 || (y == 0 && m >= 3)
    ensures var d := NthWeekday(-1, w, m, y);
            && ValidDate(y, m, d) && Weekday(y, m, d) == w
            && forall e :: d < e <= DaysInMonth(y, m) ==> Weekday(y, m, e) != w
  {
    FirstInWeekOne(w, m, y);
    FirstFallsOnTarget(y, m, w);
    LastFromFirst(NthWeekday(1, w, m, y), NthWeekday(-1, w, m, y), w, m, y);
  }

  // ----- the bounds -----

  predicate Northern(rule: DstRule) {
    rule == NA || rule == EU || rule == IL
  }

  predicate InYear(t: int, y: int) {
    YearStart(y) * 86400 <= t < YearStart(y + 1) * 86400
  }

  /** Every bound is a real date: the day numbers never leave their month, in any year. */
  lemma DstTmsValid(rule: DstRule, year: int)
    requires rule != None
    ensures ValidTm(DstTms(rule, year).0) && ValidTm(DstTms(rule, year).1)
    ensures Northern(rule) <==> DstTms(rule, year).0.mon < DstTms(rule, year).1.mon
    ensures !Northern(rule) <==> DstTms(rule, year).0.mon > DstTms(rule, year).1.mon
  {
  }

  lemma TimeInMonth(tm: Tm)
    requires ValidTm(tm)
    ensures var y, m := tm.year + 1900, tm.mon + 1;
            && InYear(TimeGm(tm), y)
            && (YearStart(y) + DaysBeforeMonth(y, m)) * 86400 <= TimeGm(tm)
            && TimeGm(tm) < (YearStart(y) + DaysBeforeMonth(y, m + 1)) * 86400
  {
    DateBracket(tm.year + 1900, tm.mon + 1, tm.mday);
  }

  lemma LaterMonth(a: Tm, b: Tm)
    requires ValidTm(a) && ValidTm(b) && a.year == b.year && a.mon < b.mon
    ensures TimeGm(a) < TimeGm(b)
  {
    hide TimeGm, YearStart, DaysBeforeMonth;
    TimeInMonth(a);
    TimeInMonth(b);
    MonthMonotone(a.year + 1900, a.mon + 2, b.mon + 1);
  }

  /** Both bounds lie in their own year; the start comes first exactly under NA, EU and IL,
      so the code's `start < end` test separates the hemispheres. */
  lemma BoundsInYear(rule: DstRule, y: int)
    requires rule != None
    ensures InYear(DstBounds(rule, y).0, y) && InYear(DstBounds(rule, y).1, y)
    ensures if Northern(rule) then DstBounds(rule, y).0 < DstBounds(rule, y).1
            else DstBounds(rule, y).1 < DstBounds(rule, y).0
  {
    DstTmsValid(rule, y);
    var (s, e) := DstTms(rule, y);
    TimeInMonth(s);
    TimeInMonth(e);
    if Northern(rule) { LaterMonth(s, e); } else { LaterMonth(e, s); }
  }

  /** `t` is the given time of day on the n-th such weekday of the month. */
  ghost predicate IsNth(t: int, n: int, w: int, m: Month, y: int, hour: int, min: int) {
    exists d: nat ::
      && ValidDate(y, m, d) && Weekday(y, m, d) == w && WeekdayCount(y, m, w, d) == n
      && t == DayNumber(y, m, d) * 86400 + hour * 3600 + min * 60
  }

  /** `t` is the given time of day `back` days before the last such weekday of the month. */
  ghost predicate IsLast(t: int, back: int, w: int, m: Month, y: int, hour: int) {
    exists d ::
      && ValidDate(y, m, d) && Weekday(y, m, d) == w
      && (forall e :: d < e <= DaysInMonth(y, m) ==> Weekday(y, m, e) != w)
      && t == DayNumber(y, m, d - back) * 86400 + hour * 3600
  }

  lemma NthBound(n: int, w: int, m: Month, y: int, hour: int, min: int)
    requires 1 <= n <= 4 && 0 <= w <= 6 && y >= 0 && m >= 3 && 0 <= hour < 24 && 0 <= min < 60
    ensures ValidTm(At(y, m - 1, NthWeekday(n, w, m, y), hour, min))
    ensures IsNth(TimeGm(At(y, m - 1, NthWeekday(n, w, m, y), hour, min)), n, w, m, y, hour, min)
  {
    NthWeekdayIsNth(n, w, m, y);
  }

  lemma LastBound(back: int, w: int, m: Month, y: int, hour: int)
    requires 0 <= back <= 2 && 0 <= w <= 6 && y >= 0 && m >= 3 && 0 <= hour < 24
    ensures ValidTm(At(y, m - 1, NthWeekday(-1, w, m, y) - back, hour, 0))
    ensures IsLast(TimeGm(At(y, m - 1, NthWeekday(-1, w, m, y) - back, hour, 0)), back, w, m, y, hour)
  {
    LastWeekdayIsLast(w, m, y);
    FirstInWeekOne(w, m, y);
  }

  /** The bounds are the published rules, read as UTC, for every year from 0 on. Chile's change at
      24:00 is taken one minute early, and Israel's start is the Friday before the last Sunday. */
  lemma BoundsAreTheRules(rule: DstRule, y: int)
    requires rule != None && y >= 0
    ensures var (s, e) := DstBounds(rule, y);
            match rule
            case NA => IsNth(s, 2, 0, 3, y, 2, 0) && IsNth(e, 1, 0, 11, y, 2, 0)
            case EU => IsLast(s, 0, 0, 3, y, 1) && IsLast(e, 0, 0, 10, y, 1)
            case AU => IsNth(s, 1, 0, 10, y, 2, 0) && IsNth(e, 1, 0, 4, y, 3, 0)
            case NZ => IsLast(s, 0, 0, 9, y, 2) && IsNth(e, 1, 0, 4, y, 3, 0)
            case CL => IsNth(s, 1, 6, 9, y, 23, 59) && IsNth(e, 1, 6, 4, y, 23, 59)
            case IL => IsLast(s, 2, 0, 3, y, 2) && IsLast(e, 0, 0, 10, y, 2)
  {
    hide IsNth, IsLast, TimeGm, NthWeekday, WeekdayCount, Weekday, ValidTm;
    match rule
    case NA => NthBound(2, 0, 3, y, 2, 0); NthBound(1, 0, 11, y, 2, 0);
    case EU => LastBound(0, 0, 3, y, 1); LastBound(0, 0, 10, y, 1);
    case AU => NthBound(1, 0, 10, y, 2, 0); NthBound(1, 0, 4, y, 3, 0);
    case NZ => LastBound(0, 0, 9, y, 2); NthBound(1, 0, 4, y, 3, 0);
    case CL => NthBound(1, 6, 9, y, 23, 59); NthBound(1, 6, 4, y, 23, 59);
    case IL => LastBound(2, 0, 3, y, 2); LastBound(0, 0, 10, y, 2);
  }

  /** The NA period lasts 238 days in every year. */
  lemma NaPeriod(y: int)
    ensures DstBounds(NA, y).1 - DstBounds(NA, y).0 == 238 * 86400
  {
    SameWeekday(y);
    DstTmsValid(NA, y);
    YearEnd(y);
    FirstInWeekOne(0, 3, y);
    FirstInWeekOne(0, 11, y);
  }

  lemma SameWeekday(y: int)
    ensures DayOfWeek(1, 3, y) == DayOfWeek(1, 11, y)
  {
    var K, J := CMod(y, 100), CDiv(y, 100);
    var rest := K + CDiv(K, 4) + CDiv(J, 4) + 5 * J;
    assert DayOfWeek(1, 3, y) == CMod(CMod(1 + 10 + K + CDiv(K, 4) + CDiv(J, 4) + 5 * J, 7) + 6, 7);
    assert DayOfWeek(1, 11, y) == CMod(CMod(1 + 31 + K + CDiv(K, 4) + CDiv(J, 4) + 5 * J, 7) + 6, 7);
    ThreeWeeks(rest);
  }

  lemma ThreeWeeks(rest: int)
    ensures CMod(CMod(1 + 10 + rest, 7) + 6, 7) == CMod(CMod(1 + 31 + rest, 7) + 6, 7)
  {
  }

  // ----- time_is_dst -----

  /** A yearly schedule of instants: each lies in its own year, and the starts precede the ends
      all in one hemisphere. */
  ghost predicate Schedule(start: int -> int, end: int -> int, northern: bool) {
    forall y :: InYear(start(y), y) && InYear(end(y), y)
      && (if northern then start(y) < end(y) else end(y) < start(y))
  }

  /** The period that begins in year `y`: it ends the same year in the north, the next in the south. */
  ghost predicate Period(start: int -> int, end: int -> int, northern: bool, y: int, t: int) {
    start(y) <= t < end(if northern then y else y + 1)
  }

  lemma YearOfInstant(t: int)
    ensures InYear(t, GmTime(t).year + 1900)
  {
  }

  lemma YearsApart(t: int, u: int, y: int, z: int)
    requires InYear(t, y) && InYear(u, z) && y < z
    ensures t < u
  {
    YearStartMonotone(y + 1, z);
  }

  lemma PeriodNearItsYear(start: int -> int, end: int -> int, northern: bool, y: int, t: int, now: int)
    requires Schedule(start, end, northern) && Period(start, end, northern, y, t) && InYear(t, now)
    ensures y == now || (!northern && y == now - 1)
  {
    var last := if northern then y else y + 1;
    assert InYear(start(y), y) && InYear(end(last), last);
    if now < y { YearsApart(t, start(y), now, y); }
    if last < now { YearsApart(end(last), t, last, now); }
  }

  /** Looking only at the bounds of the instant's own year decides membership in any year's period. */
  lemma OwnYearDecides(start: int -> int, end: int -> int, northern: bool, t: int, now: int)
    requires Schedule(start, end, northern) && InYear(t, now)
    ensures (if start(now) < end(now) then start(now) <= t < end(now) else start(now) <= t || t < end(now))
            <==> exists y :: Period(start, end, northern, y, t)
  {
    assert InYear(start(now - 1), now - 1) && InYear(end(now + 1), now + 1);
    YearsApart(start(now - 1), t, now - 1, now);
    YearsApart(t, end(now + 1), now, now + 1);
    if start(now) <= t {
      assert Period(start, end, northern, now, t) <==> !northern || t < end(now);
    }
    if t < end(now) {
      assert Period(start, end, northern, now - 1, t) <== !northern;
    }
    forall y | Period(start, end, northern, y, t)
      ensures y == now || (!northern && y == now - 1)
    {
      PeriodNearItsYear(start, end, northern, y, t, now);
    }
  }

  lemma PeriodsApart(start: int -> int, end: int -> int, northern: bool, y: int, z: int)
    requires Schedule(start, end, northern) && y < z
    ensures start(y) < end(if northern then y else y + 1) < start(z)
  {
    var last := if northern then y else y + 1;
    assert InYear(start(y), y) && InYear(end(last), last) && InYear(start(z), z);
    if !northern { YearsApart(start(y), end(last), y, last); }
    if last < z { YearsApart(end(last), start(z), last, z); }
  }

  function StartOf(rule: DstRule): int -> int {
    y => DstBounds(rule, y).0
  }

  function EndOf(rule: DstRule): int -> int {
    y => DstBounds(rule, y).1
  }

  lemma RuleIsSchedule(rule: DstRule)
    requires rule != None
    ensures Schedule(StartOf(rule), EndOf(rule), Northern(rule))
  {
    forall y ensures InYear(StartOf(rule)(y), y) && InYear(EndOf(rule)(y), y)
    ensures if Northern(rule) then StartOf(rule)(y) < EndOf(rule)(y) else EndOf(rule)(y) < StartOf(rule)(y)
    {
      BoundsInYear(rule, y);
    }
  }

  /** The per-year test is membership in the union of the continuous periods of all years. */
  lemma DstIsUnionOfPeriods(rule: DstRule, t: int)
    requires rule != None
    ensures TimeIsDst(t, rule) <==> exists y :: Period(StartOf(rule), EndOf(rule), Northern(rule), y, t)
  {
    hide Schedule, InYear, DstBounds, YearFrom, MonthFrom, YearStart, DaysBeforeMonth;
    RuleIsSchedule(rule);
    YearOfInstant(t);
    OwnYearDecides(StartOf(rule), EndOf(rule), Northern(rule), t, GmTime(t).year + 1900);
  }

  /** Local time is UTC, plus the offset in minutes, plus an hour within a period of the rule; the rule NONE has
      no periods. */
  lemma LocalTimeIs(t: int, tz: int, rule: DstRule)
    ensures rule == None ==> LocalTime(t, tz, rule) == t + 60 * tz
    ensures rule != None ==>
              LocalTime(t, tz, rule) == t + 60 * tz + if InSomePeriod(StartOf(rule), EndOf(rule), Northern(rule), t)
                                                      then 3_600 else 0
  {
    if rule != None {
      hide TimeIsDst;
      DstIsUnionOfPeriods(rule, t);
    }
  }

  /** The periods of a rule are non-empty and follow one another with a gap between. */
  lemma PeriodsDisjoint(rule: DstRule, y: int, z: int)
    requires rule != None && y < z
    ensures var end := DstBounds(rule, if Northern(rule) then y else y + 1).1;
            DstBounds(rule, y).0 < end < DstBounds(rule, z).0
  {
    RuleIsSchedule(rule);
    PeriodsApart(StartOf(rule), EndOf(rule), Northern(rule), y, z);
  }

  ghost predicate InSomePeriod(start: int -> int, end: int -> int, northern: bool, t: int) {
    exists y :: Period(start, end, northern, y, t)
  }

  lemma AtStart(start: int -> int, end: int -> int, northern: bool, y: int, t: int)
    requires Schedule(start, end, northern) && start(y) == t
    ensures InSomePeriod(start, end, northern, t) && !InSomePeriod(start, end, northern, t - 1)
  {
    hide Schedule;
    PeriodsApart(start, end, northern, y, y + 1);
    assert Period(start, end, northern, y, t);
    var before := t - 1;
    forall z ensures !Period(start, end, northern, z, before) {
      if z < y { PeriodsApart(start, end, northern, z, y); }
      if y < z { PeriodsApart(start, end, northern, y, z); }
    }
  }

  lemma AtEnd(start: int -> int, end: int -> int, northern: bool, y: int, t: int)
    requires Schedule(start, end, northern) && end(if northern then y else y + 1) == t
    ensures InSomePeriod(start, end, northern, t - 1) && !InSomePeriod(start, end, northern, t)
  {
    hide Schedule;
    PeriodsApart(start, end, northern, y, y + 1);
    assert Period(start, end, northern, y, t - 1);
    forall z ensures !Period(start, end, northern, z, t) {
      if z < y { PeriodsApart(start, end, northern, z, y); }
      if y < z { PeriodsApart(start, end, northern, y, z); }
    }
  }

  ghost predicate IsBound(bound: int -> int, y: int, t: int) {
    bound(y) == t
  }

  lemma ChangeIsBound(start: int -> int, end: int -> int, northern: bool, t: int)
    requires Schedule(start, end, northern)
    ensures InSomePeriod(start, end, northern, t) && !InSomePeriod(start, end, northern, t - 1)
            <==> exists y :: IsBound(start, y, t)
    ensures InSomePeriod(start, end, northern, t - 1) && !InSomePeriod(start, end, northern, t)
            <==> exists y :: IsBound(end, y, t)
  {
    if exists y :: IsBound(start, y, t) {
      var y :| IsBound(start, y, t);
      AtStart(start, end, northern, y, t);
    }
    if exists y :: IsBound(end, y, t) {
      var y :| IsBound(end, y, t);
      AtEnd(start, end, northern, if northern then y else y - 1, t);
    }
    if InSomePeriod(start, end, northern, t) && !InSomePeriod(start, end, northern, t - 1) {
      var y :| Period(start, end, northern, y, t);
      assert !Period(start, end, northern, y, t - 1);
      assert IsBound(start, y, t);
    }
    if InSomePeriod(start, end, northern, t - 1) && !InSomePeriod(start, end, northern, t) {
      var y :| Period(start, end, northern, y, t - 1);
      assert !Period(start, end, northern, y, t);
      assert IsBound(end, if northern then y else y + 1, t);
    }
  }

  /** From one second to the next the displayed local time advances by one second, except that it jumps an
      hour ahead exactly when a start is reached and falls an hour back exactly when an end is. */
  lemma LocalTimeJumps(rule: DstRule, tz: int, t: int)
    requires rule != None
    ensures var step := LocalTime(t, tz, rule) - LocalTime(t - 1, tz, rule);
            && (step == 3601 <==> exists y :: IsBound(StartOf(rule), y, t))
            && (step == -3599 <==> exists y :: IsBound(EndOf(rule), y, t))
            && (step == 1 || step == 3601 || step == -3599)
  {
    hide IsBound, TimeIsDst;
    RuleIsSchedule(rule);
    DstIsUnionOfPeriods(rule, t);
    DstIsUnionOfPeriods(rule, t - 1);
    ChangeIsBound(StartOf(rule), EndOf(rule), Northern(rule), t);
  }
}
