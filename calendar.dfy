/**
 * Proleptic Gregorian calendar arithmetic as the resolver gets it from Go's
 * `time` package: a calendar day is a (year, month, day) triple, time.Date
 * normalises out-of-range months into the year and out-of-range days into
 * neighbouring months, AddDate adds the fields first and normalises after,
 * and two instants compare by their position on the day line.
 */
module Calendar {

  datatype Date = Date(year: int, month: int, day: int)

  predicate IsLeap(y: int) {
    y % 4 == 0 && (y % 100 != 0 || y % 400 == 0)
  }

  /** Number of days of month m (1..12) of year y. */
  function DaysIn(y: int, m: int): (n: int)
    ensures 28 <= n <= 31
    ensures n < 30 <==> m == 2
  {
    if m == 2 then (if IsLeap(y) then 29 else 28)
    else if m == 4 || m == 6 || m == 9 || m == 11 then 30
    else 31
  }

  /** A date the calendar actually has. */
  predicate Valid(t: Date) {
    1 <= t.month <= 12 && 1 <= t.day <= DaysIn(t.year, t.month)
  }

  function YearLength(y: int): int {
    if IsLeap(y) then 366 else 365
  }

  /** Days of year y before the first of month m. */
  function DaysBeforeMonth(y: int, m: int): int {
    var leap := if IsLeap(y) then 1 else 0;
    if m <= 1 then 0
    else if m == 2 then 31
    else if m == 3 then 59 + leap
    else if m == 4 then 90 + leap
    else if m == 5 then 120 + leap
    else if m == 6 then 151 + leap
    else if m == 7 then 181 + leap
    else if m == 8 then 212 + leap
    else if m == 9 then 243 + leap
    else if m == 10 then 273 + leap
    else if m == 11 then 304 + leap
    else 334 + leap
  }

  /** Days of the years 0 .. y-1 (negative for negative y). */
  function DaysBeforeYear(y: int): int {
    365 * y + (y + 3) / 4 - (y + 99) / 100 + (y + 399) / 400
  }

  /** Position of a day on the day line; 0000-01-01 is day 1. */
  function Ordinal(t: Date): int {
    DaysBeforeYear(t.year) + DaysBeforeMonth(t.year, t.month) + t.day
  }

  /** Go's t.Before(u): an earlier instant. */
  predicate Before(t: Date, u: Date) {
    Ordinal(t) < Ordinal(u)
  }

  /** The field-by-field order of two dates. */
  predicate LexBefore(t: Date, u: Date) {
    t.year < u.year
    || (t.year == u.year && t.month < u.month)
    || (t.year == u.year && t.month == u.month && t.day < u.day)
  }

  /** Stepping y by one adds a multiple of 4, 100 or 400 below y + k exactly when k divides y. */
  lemma LeapCarry(y: int)
    ensures (y + 4) / 4 - (y + 3) / 4 == if y % 4 == 0 then 1 else 0
    ensures (y + 100) / 100 - (y + 99) / 100 == if y % 100 == 0 then 1 else 0
    ensures (y + 400) / 400 - (y + 399) / 400 == if y % 400 == 0 then 1 else 0
  {
    var q4, q100, q400 := y / 4, y / 100, y / 400;
    assert y == 4 * q4 + y % 4;
    assert y == 100 * q100 + y % 100;
    assert y == 400 * q400 + y % 400;
  }

  /** Moving to the next year moves the day line by that year's length. */
  lemma YearShift(y: int)
    ensures DaysBeforeYear(y + 1) == DaysBeforeYear(y) + YearLength(y)
  {
    LeapCarry(y);
  }

  lemma {:induction false} YearsApart(y1: int, y2: int)
    requires y1 <= y2
    ensures DaysBeforeYear(y2) - DaysBeforeYear(y1) >= 365 * (y2 - y1)
    decreases y2 - y1
  {
    if y1 < y2 {
      YearsApart(y1, y2 - 1);
      YearShift(y2 - 1);
    }
  }

  lemma MonthsApart(y: int, m1: int, m2: int)
    requires 1 <= m1 < m2 <= 12
    ensures DaysBeforeMonth(y, m1) + DaysIn(y, m1) <= DaysBeforeMonth(y, m2)
  {
  }

  lemma MonthShift(y: int, m: int)
    requires 1 <= m <= 12
    ensures m < 12 ==> DaysBeforeMonth(y, m + 1) == DaysBeforeMonth(y, m) + DaysIn(y, m)
    ensures m == 12 ==> DaysBeforeMonth(y, m) + DaysIn(y, m) == YearLength(y)
  {
  }

  /** A valid date lies within its own year on the day line. */
  lemma WithinYear(t: Date)
    requires Valid(t)
    ensures DaysBeforeYear(t.year) < Ordinal(t) <= DaysBeforeYear(t.year) + YearLength(t.year)
  {
    if t.month < 12 {
      MonthsApart(t.year, t.month, 12);
    }
    MonthShift(t.year, 12);
  }

  /** On valid dates, the day-line order is the field-by-field order. */
  lemma {:induction false} OrderIsLex(t: Date, u: Date)
    requires Valid(t) && Valid(u)
    ensures Before(t, u) <==> LexBefore(t, u)
  {
    if t.year < u.year {
      WithinYear(t);
      WithinYear(u);
      YearShift(t.year);
      YearsApart(t.year + 1, u.year);
    } else if u.year < t.year {
      WithinYear(t);
      WithinYear(u);
      YearShift(u.year);
      YearsApart(u.year + 1, t.year);
    } else if t.month < u.month {
      MonthsApart(t.year, t.month, u.month);
    } else if u.month < t.month {
      MonthsApart(t.year, u.month, t.month);
    }
  }

  /** Two valid dates on the same day of the day line are the same date. */
  lemma SameDay(t: Date, u: Date)
    requires Valid(t) && Valid(u) && Ordinal(t) == Ordinal(u)
    ensures t == u
  {
    OrderIsLex(t, u);
    OrderIsLex(u, t);
  }

  /** The month after month m of year y. */
  function NextMonth(y: int, m: int): (int, int) {
    if m == 12 then (y + 1, 1) else (y, m + 1)
  }

  /** The month before month m of year y. */
  function PrevMonth(y: int, m: int): (int, int) {
    if m == 1 then (y - 1, 12) else (y, m - 1)
  }

  /**
   * The day-carrying half of time.Date: a day number below 1 or beyond the
   * month's length borrows from or carries into the neighbouring months.
   */
  function CarryDays(y: int, m: int, d: int): (t: Date)
    requires 1 <= m <= 12
    ensures Valid(t)
    decreases if d < 1 then 1 - d else 0, d
  {
    if d < 1 then
      var (py, pm) := PrevMonth(y, m);
      CarryDays(py, pm, d + DaysIn(py, pm))
    else if d > DaysIn(y, m) then
      var (ny, nm) := NextMonth(y, m);
      CarryDays(ny, nm, d - DaysIn(y, m))
    else
      Date(y, m, d)
  }

  /** Carrying never moves a day on the day line: the result denotes the same day as (y, m, d). */
  lemma {:induction false} CarryDaysOrdinal(y: int, m: int, d: int)
    requires 1 <= m <= 12
    ensures Ordinal(CarryDays(y, m, d)) == Ordinal(Date(y, m, d))
    decreases if d < 1 then 1 - d else 0, d
  {
    if d < 1 {
      var (py, pm) := PrevMonth(y, m);
      BorrowKeepsDay(y, m, d);
      CarryDaysOrdinal(py, pm, d + DaysIn(py, pm));
    } else if d > DaysIn(y, m) {
      var (ny, nm) := NextMonth(y, m);
      CarryKeepsDay(y, m, d);
      CarryDaysOrdinal(ny, nm, d - DaysIn(y, m));
    }
  }

  /** Borrowing the previous month's length denotes the same day. */
  lemma BorrowKeepsDay(y: int, m: int, d: int)
    requires 1 <= m <= 12
    ensures var (py, pm) := PrevMonth(y, m);
            Ordinal(Date(py, pm, d + DaysIn(py, pm))) == Ordinal(Date(y, m, d))
  {
    var (py, pm) := PrevMonth(y, m);
    MonthShift(py, pm);
    YearShift(py);
  }

  /** Carrying the month's length into the next month denotes the same day. */
  lemma CarryKeepsDay(y: int, m: int, d: int)
    requires 1 <= m <= 12
    ensures var (ny, nm) := NextMonth(y, m);
            Ordinal(Date(ny, nm, d - DaysIn(y, m))) == Ordinal(Date(y, m, d))
  {
    MonthShift(y, m);
    YearShift(y);
  }

  /**
   * Go's time.Date(y, m, d, ...): the month is first brought into 1..12 by
   * carrying whole years (floor division), then the day is carried.
   */
  function Normalize(y: int, m: int, d: int): (t: Date)
    ensures Valid(t)
  {
    CarryDays(y + (m - 1) / 12, (m - 1) % 12 + 1, d)
  }

  /** Go's t.AddDate(years, months, days): add the fields, then normalise. */
  function AddDate(t: Date, years: int, months: int, days: int): (u: Date)
    ensures Valid(u)
  {
    Normalize(t.year + years, t.month + months, t.day + days)
  }

  /**
   * t.AddDate(0, 0, n) for a month already in 1..12: only the day is
   * carried, n days further along the day line.
   */
  function AddDays(t: Date, n: int): (u: Date)
    requires 1 <= t.month <= 12
    ensures Valid(u)
    ensures Ordinal(u) == Ordinal(t) + n
  {
    CarryDaysOrdinal(t.year, t.month, t.day + n);
    CarryDays(t.year, t.month, t.day + n)
  }

  /** AddDays is AddDate with only a day count. */
  lemma AddDaysIsAddDate(t: Date, n: int)
    requires 1 <= t.month <= 12
    ensures AddDays(t, n) == AddDate(t, 0, 0, n)
  {
    assert AddDate(t, 0, 0, n) == Normalize(t.year, t.month, t.day + n);
    NormalizeInRange(t.year, t.month, t.day + n);
  }

  /** A month already in 1..12 is left alone by time.Date's month carry: only the day is carried. */
  lemma NormalizeInRange(y: int, m: int, d: int)
    requires 1 <= m <= 12
    ensures Normalize(y, m, d) == CarryDays(y, m, d)
  {
    var y', m' := y + (m - 1) / 12, (m - 1) % 12 + 1;
    assert y' == y && m' == m;
  }

  /** t.AddDate(1, 0, 0). */
  function YearLater(t: Date): (u: Date)
    ensures Valid(u)
  {
    AddDate(t, 1, 0, 0)
  }

  /** t.AddDate(0, 1, 0). */
  function MonthLater(t: Date): (u: Date)
    ensures Valid(u)
  {
    AddDate(t, 0, 1, 0)
  }

  /** Go's t.Weekday(), Sunday = 0 .. Saturday = 6. */
  function Weekday(t: Date): (w: int)
    ensures 0 <= w < 7
  {
    WeekdayOf(Ordinal(t))
  }

  /** The weekday of day o of the day line; day 1 (1 January of year 0) was a Saturday. */
  function WeekdayOf(o: int): int {
    (o + 5) % 7
  }

  /**
   * A day-of-month entry of an `m` rule resolved in month m of year y:
   * a negative entry v counts back from time.Date(y, m+1, 0), the last day
   * of month m, by AddDate(0, 0, v+1); other entries stand for themselves.
   */
  function ResolveDay(v: int, y: int, m: int): (d: int)
    ensures v < 0 ==> 1 <= d <= 31
    ensures v >= 0 ==> d == v
  {
    if v < 0 then AddDays(Normalize(y, m + 1, 0), v + 1).day else v
  }

  /** time.Date(y, m+1, 0) is the last day of month m. */
  lemma {:induction false} LastDayOfMonth(y: int, m: int)
    requires 1 <= m <= 12
    ensures Normalize(y, m + 1, 0) == Date(y, m, DaysIn(y, m))
  {
    var (ny, nm) := NextMonth(y, m);
    assert y + (m + 1 - 1) / 12 == ny && (m + 1 - 1) % 12 + 1 == nm;
    assert PrevMonth(ny, nm) == (y, m);
    assert CarryDays(ny, nm, 0) == CarryDays(y, m, DaysIn(y, m));
  }

  /** -1 is the last day of the month, -2 the day before it. */
  lemma {:induction false} ResolveNegative(v: int, y: int, m: int)
    requires 1 <= m <= 12 && -DaysIn(y, m) < v < 0
    ensures ResolveDay(v, y, m) == DaysIn(y, m) + v + 1
  {
    LastDayOfMonth(y, m);
    var t := AddDays(Date(y, m, DaysIn(y, m)), v + 1);
    SameDay(t, Date(y, m, DaysIn(y, m) + v + 1));
  }

  /** The year after a leap year is never one. */
  lemma LeapFollower(y: int)
    requires IsLeap(y)
    ensures !IsLeap(y + 1)
  {
    assert y % 4 == 0;
    assert (y + 1) % 4 == 1;
  }

  /** In a common year, 29 February is carried to 1 March. */
  lemma Feb29Carry(y: int)
    requires !IsLeap(y)
    ensures CarryDays(y, 2, 29) == Date(y, 3, 1)
  {
    assert DaysIn(y, 2) == 28;
    assert NextMonth(y, 2) == (y, 3);
    assert CarryDays(y, 2, 29) == CarryDays(y, 3, 1);
  }

  /** AddDate(1, 0, 0) keeps month and day, except that 29 February becomes 1 March. */
  lemma {:induction false} YearLaterShape(t: Date)
    requires Valid(t)
    ensures YearLater(t) == if t.month == 2 && t.day == 29 then Date(t.year + 1, 3, 1)
                            else Date(t.year + 1, t.month, t.day)
  {
    assert t.year + 1 + (t.month - 1) / 12 == t.year + 1;
    assert (t.month - 1) % 12 + 1 == t.month;
    assert YearLater(t) == CarryDays(t.year + 1, t.month, t.day);
    if t.month == 2 && t.day == 29 {
      LeapFollower(t.year);
      Feb29Carry(t.year + 1);
    } else {
      assert t.day <= DaysIn(t.year + 1, t.month);
    }
  }

  /**
   * AddDate(0, 1, 0) keeps the day when the next month has it; otherwise the
   * surplus days spill into the month after (31 January becomes 3 March, or
   * 2 March in a leap year).
   */
  lemma {:induction false} MonthLaterShape(t: Date)
    requires Valid(t)
    ensures var (ny, nm) := NextMonth(t.year, t.month);
            var (ay, am) := NextMonth(ny, nm);
            MonthLater(t) == if t.day <= DaysIn(ny, nm) then Date(ny, nm, t.day)
                             else Date(ay, am, t.day - DaysIn(ny, nm))
  {
    var (ny, nm) := NextMonth(t.year, t.month);
    assert t.year + (t.month + 1 - 1) / 12 == ny;
    assert (t.month + 1 - 1) % 12 + 1 == nm;
    if t.day > DaysIn(ny, nm) {
      var (ay, am) := NextMonth(ny, nm);
      assert CarryDays(ny, nm, t.day) == CarryDays(ay, am, t.day - DaysIn(ny, nm));
    }
  }

  /** A month step always moves forward in time. */
  lemma MonthLaterAfter(t: Date)
    requires Valid(t)
    ensures Valid(MonthLater(t)) && Before(t, MonthLater(t))
  {
    MonthLaterShape(t);
    OrderIsLex(t, MonthLater(t));
  }

  /** A year step lands on a valid date of the next year. */
  lemma YearLaterNextYear(t: Date)
    requires Valid(t)
    ensures Valid(YearLater(t)) && YearLater(t).year == t.year + 1
  {
    YearLaterShape(t);
  }

  /**
   * AddDate(0, 0, 1) gives the next day of the month, or the first of the
   * next month after the month's last day.
   */
  lemma {:induction false} DayLaterShape(t: Date)
    requires Valid(t)
    ensures var (ny, nm) := NextMonth(t.year, t.month);
            AddDays(t, 1) == if t.day < DaysIn(t.year, t.month) then Date(t.year, t.month, t.day + 1)
                             else Date(ny, nm, 1)
  {
    assert t.year + (t.month - 1) / 12 == t.year;
    assert (t.month - 1) % 12 + 1 == t.month;
    if t.day == DaysIn(t.year, t.month) {
      var (ny, nm) := NextMonth(t.year, t.month);
      assert CarryDays(t.year, t.month, t.day + 1) == CarryDays(ny, nm, 1);
    }
  }

  /** Stepping one day moves the weekday on by one, Saturday wrapping to Sunday. */
  lemma NextWeekday(t: Date)
    requires 1 <= t.month <= 12
    ensures Weekday(AddDays(t, 1)) == (Weekday(t) + 1) % 7
  {
    var o := Ordinal(t);
    assert Ordinal(AddDays(t, 1)) == o + 1;
    Mod7Step(o);
  }

  lemma Mod7Step(o: int)
    ensures (o + 1 + 5) % 7 == ((o + 5) % 7 + 1) % 7
  {
  }

  /** 1 January 2001 was a Monday, the anchor Go's weekday arithmetic counts from. */
  lemma WeekdayAnchor()
    ensures Weekday(Date(2001, 1, 1)) == 1
  {
  }
}
