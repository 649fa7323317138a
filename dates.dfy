/**
  Calendar-unit arithmetic: snapping dates to the start of their week or month,
  stepping one unit backwards or forwards, and measuring distances in units.

  Dates are year/month/day triples of the proleptic Gregorian calendar; adding
  days is stepping one day at a time, as `date + timedelta(days=n)` does, and
  the day number `Ordinal` is the one `date.toordinal()` computes.
*/
module Dates {

  datatype Ymd = Ymd(year: int, month: int, day: int)

  predicate IsLeap(y: int) {
    y % 4 == 0 && (y % 100 != 0 || y % 400 == 0)
  }

  function DaysInMonth(y: int, m: int): int {
    if m == 2 then (if IsLeap(y) then 29 else 28)
    else if m == 4 || m == 6 || m == 9 || m == 11 then 30
    else 31
  }

  /** A day that exists in the calendar. */
  type Date = d: Ymd | 1 <= d.month <= 12 && 1 <= d.day <= DaysInMonth(d.year, d.month)
    witness Ymd(1, 1, 1)

  function DaysBeforeYear(y: int): int {
    var p := y - 1;
    p * 365 + p / 4 - p / 100 + p / 400
  }

  function DaysBeforeMonth(y: int, m: int): int
    requires 1 <= m <= 12
  {
    var before := [0, 31, 59, 90, 120, 151, 181, 212, 243, 273, 304, 334][m - 1];
    if m > 2 && IsLeap(y) then before + 1 else before
  }

  /** Day number: 1 January of year 1 (a Monday) is day 1. */
  function Ordinal(d: Date): int {
    DaysBeforeYear(d.year) + DaysBeforeMonth(d.year, d.month) + d.day
  }

  function NextDay(d: Date): Date {
    if d.day < DaysInMonth(d.year, d.month) then Ymd(d.year, d.month, d.day + 1)
    else if d.month < 12 then Ymd(d.year, d.month + 1, 1)
    else Ymd(d.year + 1, 1, 1)
  }

  function PrevDay(d: Date): Date {
    if d.day > 1 then Ymd(d.year, d.month, d.day - 1)
    else if d.month > 1 then Ymd(d.year, d.month - 1, DaysInMonth(d.year, d.month - 1))
    else Ymd(d.year - 1, 12, 31)
  }

  /** `d + timedelta(days=n)`, for either sign of `n`. */
  function AddDays(d: Date, n: int): Date
    decreases if n < 0 then -n else n
  {
    if n == 0 then d
    else if n > 0 then AddDays(NextDay(d), n - 1)
    else AddDays(PrevDay(d), n + 1)
  }

  // ---------------------------------------------------------------------
  // Day numbers and day steps agree

  lemma DaysBeforeYearStep(y: int)
    ensures DaysBeforeYear(y + 1) == DaysBeforeYear(y) + (if IsLeap(y) then 366 else 365)
  {
    assert y / 4 - (y - 1) / 4 == if y % 4 == 0 then 1 else 0;
    assert y / 100 - (y - 1) / 100 == if y % 100 == 0 then 1 else 0;
    assert y / 400 - (y - 1) / 400 == if y % 400 == 0 then 1 else 0;
    assert y % 100 == 0 ==> y % 4 == 0;
    assert y % 400 == 0 ==> y % 100 == 0;
  }

  lemma DaysBeforeMonthStep(y: int, m: int)
    requires 1 <= m < 12
    ensures DaysBeforeMonth(y, m + 1) == DaysBeforeMonth(y, m) + DaysInMonth(y, m)
  {
  }

  lemma OrdinalNextDay(d: Date)
    ensures Ordinal(NextDay(d)) == Ordinal(d) + 1
  {
    if d.day < DaysInMonth(d.year, d.month) {
    } else if d.month < 12 {
      DaysBeforeMonthStep(d.year, d.month);
    } else {
      DaysBeforeYearStep(d.year);
    }
  }

  lemma PrevOfNextDay(d: Date)
    ensures PrevDay(NextDay(d)) == d
  {
  }

  lemma NextOfPrevDay(d: Date)
    ensures NextDay(PrevDay(d)) == d
  {
  }

  lemma OrdinalPrevDay(d: Date)
    ensures Ordinal(PrevDay(d)) == Ordinal(d) - 1
  {
    NextOfPrevDay(d);
    OrdinalNextDay(PrevDay(d));
  }

  /** Adding `n` days moves the day number by exactly `n`. */
  lemma {:induction false} OrdinalAddDays(d: Date, n: int)
    ensures Ordinal(AddDays(d, n)) == Ordinal(d) + n
    decreases if n < 0 then -n else n
  {
    if n > 0 {
      OrdinalNextDay(d);
      OrdinalAddDays(NextDay(d), n - 1);
    } else if n < 0 {
      OrdinalPrevDay(d);
      OrdinalAddDays(PrevDay(d), n + 1);
    }
  }

  lemma AddDaysAfterNextDay(d: Date, n: int)
    ensures AddDays(NextDay(d), n) == AddDays(d, n + 1)
  {
    if n < 0 {
      PrevOfNextDay(d);
    }
  }

  lemma AddDaysAfterPrevDay(d: Date, n: int)
    ensures AddDays(PrevDay(d), n) == AddDays(d, n - 1)
  {
    if n > 0 {
      NextOfPrevDay(d);
    }
  }

  /** Two day shifts compose into one. */
  lemma {:induction false} AddDaysAdd(d: Date, a: int, b: int)
    ensures AddDays(AddDays(d, a), b) == AddDays(d, a + b)
    decreases if a < 0 then -a else a
  {
    if a > 0 {
      AddDaysAdd(NextDay(d), a - 1, b);
      AddDaysAfterNextDay(d, a - 1 + b);
    } else if a < 0 {
      AddDaysAdd(PrevDay(d), a + 1, b);
      AddDaysAfterPrevDay(d, a + 1 + b);
    }
  }

  /** Adding days that stay inside the month only moves the day of the month. */
  lemma {:induction false} AddDaysWithinMonth(d: Date, n: nat)
    requires d.day + n <= DaysInMonth(d.year, d.month)
    ensures AddDays(d, n) == Ymd(d.year, d.month, d.day + n)
    decreases n
  {
    if n > 0 {
      AddDaysWithinMonth(NextDay(d), n - 1);
    }
  }

  // ---------------------------------------------------------------------
  // Weeks (uproject.py:52-67)

  /** `int(d.strftime("%w"))`: 0 for Sunday, 1 for Monday, ..., 6 for Saturday. */
  function DayOfWeek(d: Date): int {
    Ordinal(d) % 7
  }

  /** How many days lie between a day with day number `o` and the Monday before it. */
  function DaysSinceMonday(o: int): (back: int)
    ensures 0 <= back <= 6 && (o - back) % 7 == 1
  {
    var w := o % 7;
    if w == 0 then 6 else w - 1
  }

  /** `monday(d)`: the Monday that starts the week holding `d`. */
  function Monday(d: Date): Date {
    AddDays(d, -DaysSinceMonday(Ordinal(d)))
  }

  /** `monday(d)` is a Monday, and it is `d` or one of the six days before. */
  lemma MondayStartsWeek(d: Date)
    ensures DayOfWeek(Monday(d)) == 1
    ensures Ordinal(d) - 6 <= Ordinal(Monday(d)) <= Ordinal(d)
  {
    OrdinalAddDays(d, -DaysSinceMonday(Ordinal(d)));
  }

  /** `prev_week(d)` */
  function PrevWeek(d: Date): Date {
    Monday(AddDays(Monday(d), -7))
  }

  /** `next_week(d)` */
  function NextWeek(d: Date): Date {
    Monday(AddDays(Monday(d), 7))
  }

  /** `n_weeks(d1, d2)`: signed distance in weeks, fractional to the day. */
  function NWeeks(d1: Date, d2: Date): real {
    (Ordinal(d2) - Ordinal(d1)) as real / 7.0
  }

  lemma MondayOfMonday(d: Date)
    requires DayOfWeek(d) == 1
    ensures Monday(d) == d
  {
  }

  lemma MondayIdempotent(d: Date)
    ensures Monday(Monday(d)) == Monday(d)
  {
    MondayStartsWeek(d);
    MondayOfMonday(Monday(d));
  }

  lemma WholeWeeksKeepWeekday(o: int, k: int)
    ensures (o + 7 * k) % 7 == o % 7
  {
  }

  lemma ShiftedMonday(m: Date, k: int)
    requires DayOfWeek(m) == 1
    ensures DayOfWeek(AddDays(m, 7 * k)) == 1
    ensures Monday(AddDays(m, 7 * k)) == AddDays(m, 7 * k)
  {
    OrdinalAddDays(m, 7 * k);
    WholeWeeksKeepWeekday(Ordinal(m), k);
    MondayOfMonday(AddDays(m, 7 * k));
  }

  /** The next week starts exactly seven days after the current one. */
  lemma NextWeekStep(d: Date)
    ensures NextWeek(d) == AddDays(Monday(d), 7)
    ensures Ordinal(NextWeek(d)) == Ordinal(Monday(d)) + 7
  {
    MondayStartsWeek(d);
    ShiftedMonday(Monday(d), 1);
    OrdinalAddDays(Monday(d), 7);
  }

  /** The previous week starts exactly seven days before the current one. */
  lemma PrevWeekStep(d: Date)
    ensures PrevWeek(d) == AddDays(Monday(d), -7)
    ensures Ordinal(PrevWeek(d)) == Ordinal(Monday(d)) - 7
  {
    MondayStartsWeek(d);
    ShiftedMonday(Monday(d), -1);
    OrdinalAddDays(Monday(d), -7);
  }

  lemma BackOneWeek(m: Date, n: Date)
    requires DayOfWeek(m) == 1 && n == AddDays(m, 7)
    ensures AddDays(Monday(n), -7) == m
  {
    ShiftedMonday(m, 1);
    AddDaysAdd(m, 7, -7);
  }

  lemma PrevOfNextWeek(d: Date)
    ensures PrevWeek(NextWeek(d)) == Monday(d)
  {
    MondayStartsWeek(d);
    NextWeekStep(d);
    PrevWeekStep(NextWeek(d));
    BackOneWeek(Monday(d), NextWeek(d));
  }

  /** Whole weeks measure as whole numbers: `n_weeks(d, d + 7k) == k`. */
  lemma NWeeksWhole(d: Date, k: int)
    ensures NWeeks(d, AddDays(d, 7 * k)) == k as real
  {
    OrdinalAddDays(d, 7 * k);
  }

  // ---------------------------------------------------------------------
  // Months (uproject.py:71-82)

  /** `first(d)`: day 1 of the month holding `d`. */
  function First(d: Date): Date {
    Ymd(d.year, d.month, 1)
  }

  /** `first(d)` lies `d.day - 1` days before `d`. */
  lemma FirstOrdinal(d: Date)
    ensures Ordinal(First(d)) == Ordinal(d) - (d.day - 1)
  {
  }

  /** `prev_month(d)` */
  function PrevMonth(d: Date): Date {
    First(AddDays(First(d), -1))
  }

  /** `next_month(d)` */
  function NextMonth(d: Date): Date {
    First(AddDays(First(d), 32))
  }

  /** `n_months(d1, d2)`: whole months plus the day difference over 30.42. */
  function NMonths(d1: Date, d2: Date): real {
    ((d2.year - d1.year) * 12 + d2.month - d1.month) as real + (d2.day - d1.day) as real / 30.42
  }

  /** Day 1 of the month after the month of `d`, by calendar rules. */
  function FollowingMonth(d: Date): Date {
    if d.month == 12 then Ymd(d.year + 1, 1, 1) else Ymd(d.year, d.month + 1, 1)
  }

  /** Day 1 of the month before the month of `d`, by calendar rules. */
  function PrecedingMonth(d: Date): Date {
    if d.month == 1 then Ymd(d.year - 1, 12, 1) else Ymd(d.year, d.month - 1, 1)
  }

  lemma FirstIdempotent(d: Date)
    ensures First(First(d)) == First(d)
  {
  }

  /** Thirty-two days after the first of a month always land in the next month. */
  lemma NextMonthIsFollowing(d: Date)
    ensures NextMonth(d) == FollowingMonth(d)
  {
    var f := First(d);
    var len := DaysInMonth(d.year, d.month);
    AddDaysWithinMonth(f, len - 1);
    var last := AddDays(f, len - 1);
    AddDaysAdd(f, len - 1, 33 - len);
    AddDaysAfterNextDay(last, 32 - len);
    var g := NextDay(last);
    assert g == FollowingMonth(d);
    AddDaysWithinMonth(g, 32 - len);
  }

  /** The day before the first of a month lies in the previous month. */
  lemma PrevMonthIsPreceding(d: Date)
    ensures PrevMonth(d) == PrecedingMonth(d)
  {
  }

  lemma PrevOfNextMonth(d: Date)
    ensures PrevMonth(NextMonth(d)) == First(d)
  {
    NextMonthIsFollowing(d);
    PrevMonthIsPreceding(NextMonth(d));
  }

  // ---------------------------------------------------------------------
  // The unit chosen for a chart (uproject.py:152-164)

  datatype Unit = Week | Month

  /** `self.normalize` */
  function Normalize(u: Unit, d: Date): Date {
    match u
    case Week => Monday(d)
    case Month => First(d)
  }

  /** `self.prev` */
  function Prev(u: Unit, d: Date): Date {
    match u
    case Week => PrevWeek(d)
    case Month => PrevMonth(d)
  }

  /** `self.next` */
  function Next(u: Unit, d: Date): Date {
    match u
    case Week => NextWeek(d)
    case Month => NextMonth(d)
  }

  /** `self.dur` */
  function Dur(u: Unit, d1: Date, d2: Date): real {
    match u
    case Week => NWeeks(d1, d2)
    case Month => NMonths(d1, d2)
  }

  lemma NormalizeIdempotent(u: Unit, d: Date)
    ensures Normalize(u, Normalize(u, d)) == Normalize(u, d)
  {
    if u == Week {
      MondayIdempotent(d);
    }
  }

  /** Stepping forwards lands on the start of a unit. */
  lemma NextIsNormalized(u: Unit, d: Date)
    ensures Normalize(u, Next(u, d)) == Next(u, d)
  {
    if u == Week {
      MondayIdempotent(AddDays(Monday(d), 7));
    }
  }

  /** One step forwards then one back returns to the start of the unit. */
  lemma PrevOfNext(u: Unit, d: Date)
    ensures Prev(u, Next(u, d)) == Normalize(u, d)
  {
    match u
    case Week => PrevOfNextWeek(d);
    case Month => PrevOfNextMonth(d);
  }

  lemma DurAntisymmetric(u: Unit, a: Date, b: Date)
    ensures Dur(u, a, b) == -Dur(u, b, a)
  {
  }

  /** Distances add up along a chain of dates. */
  lemma DurAdditive(u: Unit, a: Date, b: Date, c: Date)
    ensures Dur(u, a, b) + Dur(u, b, c) == Dur(u, a, c)
  {
  }

  /** From the start of a unit, one step forwards measures exactly one unit. */
  lemma DurOfNext(u: Unit, d: Date)
    requires Normalize(u, d) == d
    ensures Dur(u, d, Next(u, d)) == 1.0
  {
    match u
    case Week =>
      NextWeekStep(d);
    case Month =>
      NextMonthIsFollowing(d);
  }

  /** The start of the `k`-th unit after the unit that starts at `d`, by calendar rules. */
  function UnitStart(u: Unit, d: Date, k: nat): Date {
    match u
    case Week => AddDays(d, 7 * k)
    case Month =>
      var index := d.year * 12 + (d.month - 1) + k;
      Ymd(index / 12, index % 12 + 1, 1)
  }

  lemma WeekStep(d: Date, t: Date, k: nat)
    requires DayOfWeek(d) == 1 && t == AddDays(d, 7 * k)
    ensures NextWeek(t) == AddDays(d, 7 * (k + 1))
  {
    ShiftedMonday(d, k);
    NextWeekStep(t);
    AddDaysAdd(d, 7 * k, 7);
  }

  /** Stepping from one unit start with `next` reaches the following unit start. */
  lemma NextUnitStart(u: Unit, d: Date, k: nat)
    requires Normalize(u, d) == d
    ensures Next(u, UnitStart(u, d, k)) == UnitStart(u, d, k + 1)
  {
    match u
    case Week =>
      MondayStartsWeek(d);
      WeekStep(d, UnitStart(u, d, k), k);
    case Month =>
      NextMonthIsFollowing(UnitStart(u, d, k));
  }

  /** The `k`-th unit start is a unit boundary lying exactly `k` units after `d`. */
  lemma DurOfUnitStart(u: Unit, d: Date, k: nat)
    requires Normalize(u, d) == d
    ensures Normalize(u, UnitStart(u, d, k)) == UnitStart(u, d, k)
    ensures Dur(u, d, UnitStart(u, d, k)) == k as real
  {
    match u
    case Week =>
      MondayStartsWeek(d);
      ShiftedMonday(d, k);
      NWeeksWhole(d, k);
    case Month =>
  }
}
