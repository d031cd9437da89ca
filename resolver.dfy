/**
 * The recurrence-date resolver of task/task.go: given a task's date, its
 * repeat rule and a reference "now", the next date on which the task comes
 * back. Each rule kind advances a candidate date in a loop; each loop is a
 * method below, proved against a predicate that says which date it must
 * stop at.
 */
module Resolver {
  import opened Wrappers
  import opened Text
  import opened Calendar
  import opened Layout
  import opened Lists

  /** The errors the resolver returns, told apart by cause (their text is not modelled). */
  datatype Error =
    | NowFormatError    // the explicit `now` is not a YYYYMMDD date
    | RuleFormatError   // the rule is unknown, a number does not parse, or a list entry is out of range
    | DayLimitError     // `d N` with N >= 400
    | DateFormatError   // the task's own date is not a YYYYMMDD date

  /**
   * What one call gives back: a date in the "20060102" layout ("" when the
   * rule is empty), an error, or no answer because the source's loop never
   * ends.
   */
  datatype Reply = Done(value: string) | Failed(error: Error) | Diverges

  /**
   * taskDate.Before(now). With an explicit `now` (live == false) this is the
   * order of days; against the wall clock (live == true) `now` is an instant
   * during the day `now`, so that day's midnight already lies before it.
   */
  predicate BeforeNow(t: Date, now: Date, live: bool) {
    if live then !Before(now, t) else Before(t, now)
  }

  // ---------------------------------------------------------------- d N

  /** BeforeNow for a position on the day line. */
  predicate DayBeforeNow(o: int, now: Date, live: bool) {
    if live then o <= Ordinal(now) else o < Ordinal(now)
  }

  /** k steps of AddDate(0, 0, n) from t. */
  function DaySteps(t: Date, n: int, k: nat): (u: Date)
    requires Valid(t)
    ensures Valid(u)
  {
    if k == 0 then t else AddDays(DaySteps(t, n, k - 1), n)
  }

  lemma MulLe(a: int, b: int, n: int)
    requires a <= b && n >= 0
    ensures a * n <= b * n
  {
    assert b * n - a * n == (b - a) * n;
  }

  lemma MulPred(k: int, n: int)
    ensures (k - 1) * n == k * n - n
  {
  }

  /** k steps of n days land k * n days further on. */
  lemma {:induction false} DayStepsOrdinal(t: Date, n: int, k: nat)
    requires Valid(t)
    ensures Ordinal(DaySteps(t, n, k)) == Ordinal(t) + k * n
  {
    if k > 0 {
      var p := DaySteps(t, n, k - 1);
      DayStepsOrdinal(t, n, k - 1);
      assert DaySteps(t, n, k) == AddDays(p, n);
      MulPred(k, n);
    }
  }

  /**
   * The date `d N` must stop at: k >= 1 steps of N days after the base, not
   * before now, where the step before it (when there was one) was still
   * before now.
   */
  ghost predicate DailyNext(base: Date, n: int, now: Date, live: bool, r: Date) {
    exists k: nat :: DailyStop(base, n, now, live, r, k)
  }

  /** r is the valid date k * N days after the base, and the first of those steps not before now. */
  ghost predicate DailyStop(base: Date, n: int, now: Date, live: bool, r: Date, k: nat) {
    k >= 1 && Valid(r) && Ordinal(r) == Ordinal(base) + k * n && !BeforeNow(r, now, live)
    && (k > 1 ==> DayBeforeNow(Ordinal(r) - n, now, live))
  }

  /** The stepping loop of `d N`: N days on, and again for as long as the date is before now. */
  method StepDays(base: Date, n: int, now: Date, live: bool) returns (r: Date)
    requires Valid(base) && Valid(now) && n >= 1
    ensures DailyNext(base, n, now, live, r)
  {
    ghost var k: nat := 1;
    r := AddDays(base, n);
    while BeforeNow(r, now, live)
      invariant k >= 1 && Valid(r) && Ordinal(r) == Ordinal(base) + k * n
      invariant k > 1 ==> DayBeforeNow(Ordinal(r) - n, now, live)
      decreases Ordinal(now) - Ordinal(r) + 1
    {
      MulPred(k + 1, n);
      k := k + 1;
      r := AddDays(r, n);
    }
    assert DailyStop(base, n, now, live, r, k);
  }

  /**
   * With N <= 0 the stepping loop of `d N` never ends once its first
   * candidate is before now: no number of further steps gets past now.
   */
  lemma {:induction false} NeverCatchesUp(t: Date, n: int, now: Date, live: bool, k: nat)
    requires Valid(t) && n <= 0 && BeforeNow(t, now, live)
    ensures BeforeNow(DaySteps(t, n, k), now, live)
  {
    if k > 0 {
      var p := DaySteps(t, n, k - 1);
      NeverCatchesUp(t, n, now, live, k - 1);
      assert DaySteps(t, n, k) == AddDays(p, n);
      assert Ordinal(AddDays(p, n)) <= Ordinal(p);
    }
  }

  // ---------------------------------------------------------------- y

  /** k steps of AddDate(1, 0, 0) from t. */
  function YearSteps(t: Date, k: nat): Date {
    if k == 0 then t else YearLater(YearSteps(t, k - 1))
  }

  /**
   * The date k years after t: the same month and day, except that 29
   * February becomes 1 March.
   */
  function YearDate(t: Date, k: nat): Date {
    if k >= 1 && t.month == 2 && t.day == 29 then Date(t.year + k, 3, 1)
    else Date(t.year + k, t.month, t.day)
  }

  /**
   * Stepping whole years keeps month and day, except that 29 February
   * turns into 1 March at the first step and stays there.
   */
  lemma {:induction false} YearStepsShape(t: Date, k: nat)
    requires Valid(t)
    ensures YearSteps(t, k) == YearDate(t, k)
    ensures Valid(YearSteps(t, k))
  {
    if k > 0 {
      YearStepsShape(t, k - 1);
      YearLaterShape(YearSteps(t, k - 1));
    }
  }

  /**
   * The date `y` must stop at: the base moved on by k >= 1 years, where k
   * is the difference of the years, not before now, where the year before
   * it was still before now.
   */
  ghost predicate YearlyNext(base: Date, now: Date, live: bool, r: Date) {
    var k := r.year - base.year;
    k >= 1 && r == YearDate(base, k) && !BeforeNow(r, now, live)
    && (k > 1 ==> BeforeNow(YearDate(base, k - 1), now, live))
  }

  /** The stepping loop of `y`: a year on, and again for as long as the date is before now. */
  method StepYears(base: Date, now: Date, live: bool) returns (r: Date)
    requires Valid(base) && Valid(now)
    ensures YearlyNext(base, now, live, r)
  {
    ghost var k: nat := 1;
    YearLaterNextYear(base);
    r := YearLater(base);
    while BeforeNow(r, now, live)
      invariant k >= 1 && r == YearSteps(base, k) && r.year == base.year + k && Valid(r)
      invariant k > 1 ==> BeforeNow(YearSteps(base, k - 1), now, live)
      decreases now.year - r.year + 1
    {
      OrderIsLex(r, now);
      OrderIsLex(now, r);
      YearLaterNextYear(r);
      k := k + 1;
      r := YearLater(r);
    }
    assert r.year - base.year == k;
    YearStepsShape(base, k);
    if k > 1 {
      YearStepsShape(base, k - 1);
      assert BeforeNow(YearDate(base, k - 1), now, live);
    }
  }

  lemma YearDateValid(t: Date, k: nat)
    requires Valid(t)
    ensures Valid(YearDate(t, k))
  {
    YearStepsShape(t, k);
  }

  // ---------------------------------------------------------------- w and m

  /**
   * Where `w` and `m` start looking: the base date when it is after now,
   * otherwise the day after now; that is, the earliest date after now that
   * is not before the base.
   */
  function SearchStart(base: Date, now: Date): (s: Date)
    requires Valid(base) && Valid(now)
    ensures Valid(s)
    ensures Before(now, s) && !Before(s, base)
    ensures forall u :: Before(now, u) && !Before(u, base) ==> !Before(u, s)
    ensures Before(now, base) ==> s == base
    ensures !Before(now, base) ==> Ordinal(s) == Ordinal(now) + 1
  {
    if Before(now, base) then base else AddDays(now, 1)
  }

  /** No date in [a, b) falls on a listed weekday. */
  ghost predicate NoListedWeekday(weekdays: set<int>, a: Date, b: Date) {
    forall t :: Valid(t) && !Before(t, a) && Before(t, b) ==> Weekday(t) !in weekdays
  }

  /** The date `w` must stop at: the first date from `start` on that falls on a listed weekday. */
  ghost predicate WeeklyNext(start: Date, weekdays: set<int>, r: Date) {
    Valid(r) && !Before(r, start) && Weekday(r) in weekdays && NoListedWeekday(weekdays, start, r)
  }

  lemma Mod7Target(x: int, w: int)
    requires 0 <= w < 7
    ensures (x + (if w >= x % 7 then w - x % 7 else w - x % 7 + 7)) % 7 == w
  {
  }

  /** Within a week from any date, every weekday comes up. */
  lemma WeekdayAhead(start: Date, w: int) returns (k: int)
    requires Valid(start) && 0 <= w < 7
    ensures 0 <= k < 7 && WeekdayOf(Ordinal(start) + k) == w
  {
    var x := Ordinal(start) + 5;
    k := if w >= x % 7 then w - x % 7 else w - x % 7 + 7;
    Mod7Target(x, w);
  }

  /** The day-by-day weekday search: step one day until the weekday is listed. */
  method ScanWeekdays(start: Date, list: seq<int>) returns (r: Date)
    requires Valid(start) && |list| > 0
    requires forall i :: 0 <= i < |list| ==> 0 <= list[i] < 7
    ensures WeeklyNext(start, Elems(list), r)
    ensures Ordinal(r) - Ordinal(start) < 7
  {
    ghost var bound := WeekdayAhead(start, list[0]);
    ghost var last := Ordinal(start) + bound;
    r := start;
    var found := Contains(list, Weekday(r));
    while !found
      invariant Valid(r) && Ordinal(start) <= Ordinal(r) <= last
      invariant found <==> Weekday(r) in list
      invariant forall o :: Ordinal(start) <= o < Ordinal(r) ==> WeekdayOf(o) !in list
      decreases last - Ordinal(r)
    {
      assert Ordinal(r) != last by {
        assert WeekdayOf(last) in list;
      }
      r := AddDays(r, 1);
      found := Contains(list, Weekday(r));
    }
    forall t | Valid(t) && !Before(t, start) && Before(t, r) ensures Weekday(t) !in Elems(list) {
      assert Weekday(t) == WeekdayOf(Ordinal(t));
    }
  }

  /** t's day of the month is a listed day, -1 and -2 counted back from the end of t's own month. */
  ghost predicate DayListed(t: Date, days: set<int>) {
    exists v :: v in days && t.day == ResolveDay(v, t.year, t.month)
  }

  /** No date in [a, b) falls on a listed day. */
  ghost predicate NoListedDay(days: set<int>, a: Date, b: Date) {
    forall t :: Valid(t) && !Before(t, a) && Before(t, b) ==> !DayListed(t, days)
  }

  /** The source's own steps for a negative entry resolve it as ResolveDay does. */
  lemma NegativeEntry(v: int, y: int, m: int)
    requires v < 0
    ensures AddDate(Normalize(y, m + 1, 0), 0, 0, v + 1).day == ResolveDay(v, y, m)
  {
    AddDaysIsAddDate(Normalize(y, m + 1, 0), v + 1);
  }

  /** The inner loop over the day list, resolving negative entries in t's month. */
  method DayMatches(list: seq<int>, t: Date) returns (found: bool)
    requires Valid(t)
    ensures found <==> DayListed(t, Elems(list))
  {
    found := false;
    var i := 0;
    while i < |list|
      invariant 0 <= i <= |list|
      invariant forall k :: 0 <= k < i ==> t.day != ResolveDay(list[k], t.year, t.month)
    {
      var v := ResolveEntry(list[i], t);
      if t.day == v {
        assert list[i] in Elems(list);
        found := true;
        break;
      }
      i := i + 1;
    }
    if !found {
      forall v | v in Elems(list) ensures t.day != ResolveDay(v, t.year, t.month) {
        var k :| 0 <= k < |list| && list[k] == v;
      }
    }
  }

  /** One entry of the day list as the loop body resolves it in t's month. */
  method ResolveEntry(entry: int, t: Date) returns (v: int)
    requires Valid(t)
    ensures v == ResolveDay(entry, t.year, t.month)
    ensures -2 <= entry < 0 ==> v == DaysIn(t.year, t.month) + entry + 1
    ensures entry >= 0 ==> v == entry
  {
    if -2 <= entry < 0 {
      ResolveNegative(entry, t.year, t.month);
    }
    v := entry;
    if v < 0 {
      NegativeEntry(v, t.year, t.month);
      v := v + 1;
      var lastDay := Normalize(t.year, t.month + 1, 0);
      v := AddDate(lastDay, 0, 0, v).day;
    }
  }

  lemma ListedDiffers(t: Date, u: Date, days: set<int>)
    requires Valid(t) && Valid(u)
    ensures DayListed(t, days) != DayListed(u, days) ==> Ordinal(t) != Ordinal(u)
  {
    if Ordinal(t) == Ordinal(u) {
      SameDay(t, u);
    }
  }

  function FirstOfNextMonth(t: Date): Date {
    var (y, m) := NextMonth(t.year, t.month);
    Date(y, m, 1)
  }

  /**
   * What checkFirstMonth returns: the first listed day from t to the end of
   * t's month, or, when there is none, the first of the next month.
   */
  ghost predicate FirstMonthAnchor(days: set<int>, t: Date, r: Date) {
    Valid(r) && !Before(r, t) && NoListedDay(days, t, r)
    && ((r.year == t.year && r.month == t.month && DayListed(r, days)) || r == FirstOfNextMonth(t))
  }

  /** checkFirstMonth: the day-by-day scan that gives up when the month changes. */
  method CheckFirstMonth(list: seq<int>, t: Date) returns (r: Date)
    requires Valid(t)
    ensures FirstMonthAnchor(Elems(list), t, r)
  {
    var startMonth := t.month;
    r := t;
    while true
      invariant Valid(r) && r.year == t.year && r.month == t.month && r.day >= t.day
      invariant NoListedDay(Elems(list), t, r)
      decreases DaysIn(r.year, r.month) - r.day
    {
      var found := DayMatches(list, r);
      if found {
        return;
      }
      var prev := r;
      DayLaterShape(prev);
      r := AddDays(r, 1);
      forall x | Valid(x) && !Before(x, t) && Before(x, r) ensures !DayListed(x, Elems(list)) {
        if Ordinal(x) == Ordinal(prev) {
          SameDay(x, prev);
        }
      }
      if r.month != startMonth {
        return;
      }
    }
  }

  /** k steps of AddDate(0, 1, 0) from t. */
  function MonthSteps(t: Date, k: nat): Date {
    if k == 0 then t else MonthLater(MonthSteps(t, k - 1))
  }

  /** After j month steps from t the month is listed, and after no fewer. */
  ghost predicate ListedMonthAfter(t: Date, months: set<int>, j: nat) {
    MonthSteps(t, j).month in months && forall i :: 0 <= i < j ==> MonthSteps(t, i).month !in months
  }

  /** How many months forward from month m month `target` comes next (0 when they agree). */
  function MonthDistance(m: int, target: int): int {
    if m <= target then target - m else target - m + 12
  }

  /**
   * A bound on the month steps still needed to reach `target`: the month
   * distance, plus 12 while a day past the 28th may still spill over a
   * short month.
   */
  function MonthGauge(t: Date, target: int): int {
    (if t.day > 28 then 12 else 0) + MonthDistance(t.month, target)
  }

  /** A month step away from a month other than `target` brings `target` closer. */
  lemma GaugeDrops(t: Date, target: int)
    requires Valid(t) && 1 <= target <= 12 && t.month != target
    ensures 0 <= MonthGauge(MonthLater(t), target) < MonthGauge(t, target)
  {
    MonthLaterShape(t);
  }

  /** The month-stepping loop of `m days months`: AddDate(0, 1, 0) until the month is listed. */
  method StepMonths(t: Date, list: seq<int>) returns (r: Date, ghost j: nat)
    requires Valid(t) && |list| > 0
    requires forall i :: 0 <= i < |list| ==> 1 <= list[i] <= 12
    ensures r == MonthSteps(t, j) && ListedMonthAfter(t, Elems(list), j)
    ensures Valid(r) && !Before(r, t)
    ensures j <= 23
  {
    ghost var months := Elems(list);
    assert list[0] in months;
    r, j := t, 0;
    var found := Contains(list, r.month);
    while !found
      invariant MonthWalk(t, r, j, months, list[0])
      invariant found <==> r.month in months
      decreases MonthGauge(r, list[0])
    {
      MonthWalkStep(t, r, j, months, list[0]);
      r := MonthLater(r);
      j := j + 1;
      found := Contains(list, r.month);
    }
  }

  /**
   * After j month steps from t toward the listed month `target`: a valid
   * date, not before t, no listed month passed, within the step budget.
   */
  ghost predicate MonthWalk(t: Date, r: Date, j: nat, months: set<int>, target: int) {
    Valid(t) && Valid(r) && r == MonthSteps(t, j) && !Before(r, t) && 1 <= target <= 12 && target in months
    && (forall i :: 0 <= i < j ==> MonthSteps(t, i).month !in months)
    && 0 <= j + MonthGauge(r, target) <= MonthGauge(t, target) <= 23
  }

  /** One more month step from an unlisted month keeps the walk going and shrinks the gauge. */
  lemma MonthWalkStep(t: Date, r: Date, j: nat, months: set<int>, target: int)
    requires MonthWalk(t, r, j, months, target) && r.month !in months
    ensures MonthWalk(t, MonthLater(r), j + 1, months, target)
    ensures MonthGauge(MonthLater(r), target) < MonthGauge(r, target)
  {
    GaugeDrops(r, target);
    MonthLaterAfter(r);
    forall i | 0 <= i < j + 1 ensures MonthSteps(t, i).month !in months {
      if i == j {
        assert MonthSteps(t, i) == r;
      }
    }
  }

  /** Every month step goes forward in time. */
  lemma {:induction false} MonthStepsForward(t: Date, j: nat)
    requires Valid(t)
    ensures Valid(MonthSteps(t, j)) && !Before(MonthSteps(t, j), t)
  {
    if j > 0 {
      MonthStepsForward(t, j - 1);
      MonthLaterAfter(MonthSteps(t, j - 1));
    }
  }

  /** The first date from a on that falls on a listed day. */
  ghost predicate ScanFrom(days: set<int>, a: Date, r: Date) {
    Valid(r) && !Before(r, a) && DayListed(r, days) && NoListedDay(days, a, r)
  }

  /** From any date, some later date falls on day entry v. */
  lemma ListedDayAhead(a: Date, v: int) returns (w: Date)
    requires Valid(a) && -2 <= v <= 31 && v != 0
    ensures Valid(w) && !Before(w, a) && w.day == ResolveDay(v, w.year, w.month)
  {
    var (y, m) := (a.year, a.month);
    var (ny, nm) := NextMonth(y, m);
    var (ay, am) := NextMonth(ny, nm);
    if v < 0 {
      ResolveNegative(v, y, m);
      ResolveNegative(v, ny, nm);
      if DaysIn(y, m) + v + 1 >= a.day {
        w := Date(y, m, DaysIn(y, m) + v + 1);
      } else {
        w := Date(ny, nm, DaysIn(ny, nm) + v + 1);
      }
    } else if a.day <= v <= DaysIn(y, m) {
      w := Date(y, m, v);
    } else if v <= DaysIn(ny, nm) {
      w := Date(ny, nm, v);
    } else {
      w := Date(ay, am, v);
    }
    OrderIsLex(w, a);
  }

  /** The final day-by-day scan of `m`: step one day until the day of the month is listed. */
  method ScanDays(a: Date, list: seq<int>) returns (r: Date)
    requires Valid(a) && |list| > 0
    requires forall i :: 0 <= i < |list| ==> -2 <= list[i] <= 31 && list[i] != 0
    ensures ScanFrom(Elems(list), a, r)
  {
    ghost var w := ListedDayAhead(a, list[0]);
    assert DayListed(w, Elems(list)) by {
      assert list[0] in Elems(list);
    }
    r := a;
    var found := DayMatches(list, r);
    while !found
      invariant Valid(r) && Ordinal(a) <= Ordinal(r) <= Ordinal(w)
      invariant found <==> DayListed(r, Elems(list))
      invariant NoListedDay(Elems(list), a, r)
      decreases Ordinal(w) - Ordinal(r)
    {
      ListedDiffers(r, w, Elems(list));
      var prev := r;
      r := AddDays(r, 1);
      forall x | Valid(x) && !Before(x, a) && Before(x, r) ensures !DayListed(x, Elems(list)) {
        if Ordinal(x) == Ordinal(prev) {
          SameDay(x, prev);
        }
      }
      found := DayMatches(list, r);
    }
  }

  /** The month phase of `m`: nothing without a month list, else the listed-month stepping. */
  ghost predicate MonthPhase(a1: Date, months: Option<set<int>>, a2: Date) {
    match months
    case None => a2 == a1
    case Some(ms) => exists j: nat :: a2 == MonthSteps(a1, j) && ListedMonthAfter(a1, ms, j)
  }

  /**
   * The date `m` must stop at: checkFirstMonth from `start`, then the month
   * phase, then the first listed day from there on.
   */
  ghost predicate MonthlyNext(days: set<int>, months: Option<set<int>>, start: Date, r: Date) {
    exists a1: Date, a2: Date ::
      FirstMonthAnchor(days, start, a1) && MonthPhase(a1, months, a2) && ScanFrom(days, a2, r)
  }

  // ---------------------------------------------------------------- the rules

  /** `d N`: the number after "d ", the 400-day limit, the task date, then the stepping. */
  ghost predicate DailyReply(repeat: string, date: string, now: Date, live: bool, r: Reply)
    requires Valid(now)
  {
    match Atoi(TrimPrefix(repeat, "d "))
    case None => r == Failed(RuleFormatError)
    case Some(n) =>
      if n >= 400 then r == Failed(DayLimitError)
      else match ParseDate(date)
        case None => r == Failed(DateFormatError)
        case Some(base) =>
          if n >= 1 then exists t :: DailyNext(base, n, now, live, t) && r == Done(FormatDate(t))
          else
            // N <= 0 never moves the date forward: the loop ends at once or never
            var first := AddDays(base, n);
            if BeforeNow(first, now, live) then r == Diverges else r == Done(FormatDate(first))
  }

  /** `y`: the task date, then the stepping by whole years. */
  ghost predicate YearlyReply(date: string, now: Date, live: bool, r: Reply) {
    match ParseDate(date)
    case None => r == Failed(DateFormatError)
    case Some(base) => exists t :: YearlyNext(base, now, live, t) && r == Done(FormatDate(t))
  }

  /** `w list`: the weekday list, the task date, then the first listed weekday from the search start. */
  ghost predicate WeeklyReply(repeat: string, date: string, now: Date, r: Reply)
    requires Valid(now)
  {
    var tokens := Split(TrimPrefix(repeat, "w "), ',');
    if !AllAccepted(tokens, WeekdayField) then r == Failed(RuleFormatError)
    else match ParseDate(date)
      case None => r == Failed(DateFormatError)
      case Some(base) =>
        exists t :: WeeklyNext(SearchStart(base, now), ValueSet(tokens, WeekdayField), t) && r == Done(FormatDate(t))
  }

  /**
   * `m days [months]`: the token count, the day list, the task date, the
   * month list (read only after the date), then the monthly search.
   */
  ghost predicate MonthlyReply(repeat: string, date: string, now: Date, r: Reply)
    requires Valid(now)
  {
    var parts := Split(repeat, ' ');
    if |parts| > 3 || |parts| < 2 then r == Failed(RuleFormatError)
    else
      var dayTokens := Split(parts[1], ',');
      if !AllAccepted(dayTokens, DayField) then r == Failed(RuleFormatError)
      else match ParseDate(date)
        case None => r == Failed(DateFormatError)
        case Some(base) =>
          var monthTokens := if |parts| == 3 then Split(parts[2], ',') else [];
          if |parts| == 3 && !AllAccepted(monthTokens, MonthField) then r == Failed(RuleFormatError)
          else
            var months := if |parts| == 3 then Some(ValueSet(monthTokens, MonthField)) else None;
            exists t :: MonthlyNext(ValueSet(dayTokens, DayField), months, SearchStart(base, now), t)
                        && r == Done(FormatDate(t))
  }

  /**
   * The whole resolver: the rule kinds tried in the source's order, an
   * empty rule meaning "no repeat", anything else a rule error.
   */
  ghost predicate Resolves(repeat: string, date: string, now: Date, live: bool, r: Reply)
    requires Valid(now)
  {
    if HasPrefix(repeat, "d ") then DailyReply(repeat, date, now, live, r)
    else if repeat == "y" then YearlyReply(date, now, live, r)
    else if HasPrefix(repeat, "w ") then WeeklyReply(repeat, date, now, r)
    else if HasPrefix(repeat, "m ") then MonthlyReply(repeat, date, now, r)
    else if repeat == "" then r == Done("")
    else r == Failed(RuleFormatError)
  }

  method ResolveDaily(repeat: string, date: string, now: Date, live: bool) returns (r: Reply)
    requires Valid(now)
    ensures DailyReply(repeat, date, now, live, r)
  {
    var parsed := Atoi(TrimPrefix(repeat, "d "));
    if parsed.None? {
      return Failed(RuleFormatError);
    }
    var n := parsed.value;
    if n >= 400 {
      return Failed(DayLimitError);
    }
    var taskDate := ParseDate(date);
    if taskDate.None? {
      return Failed(DateFormatError);
    }
    var base := taskDate.value;
    if n >= 1 {
      var t := StepDays(base, n, now, live);
      r := Done(FormatDate(t));
    } else {
      var first := AddDays(base, n);
      if BeforeNow(first, now, live) {
        r := Diverges;
      } else {
        r := Done(FormatDate(first));
      }
    }
  }

  method ResolveYearly(date: string, now: Date, live: bool) returns (r: Reply)
    requires Valid(now)
    ensures YearlyReply(date, now, live, r)
  {
    var taskDate := ParseDate(date);
    if taskDate.None? {
      return Failed(DateFormatError);
    }
    var t := StepYears(taskDate.value, now, live);
    r := Done(FormatDate(t));
  }

  method ResolveWeekly(repeat: string, date: string, now: Date) returns (r: Reply)
    requires Valid(now)
    ensures WeeklyReply(repeat, date, now, r)
  {
    var tokens := Split(TrimPrefix(repeat, "w "), ',');
    var weekdays := ParseField(tokens, WeekdayField);
    if weekdays.None? {
      return Failed(RuleFormatError);
    }
    var taskDate := ParseDate(date);
    if taskDate.None? {
      return Failed(DateFormatError);
    }
    var list := weekdays.value;
    forall i | 0 <= i < |list| ensures 0 <= list[i] < 7 {
      assert InRange(WeekdayField, list[i]);
    }
    var t := ScanWeekdays(SearchStart(taskDate.value, now), list);
    r := Done(FormatDate(t));
  }

  method ResolveMonthly(repeat: string, date: string, now: Date) returns (r: Reply)
    requires Valid(now)
    ensures MonthlyReply(repeat, date, now, r)
  {
    var parts := Split(repeat, ' ');
    if |parts| > 3 || |parts| < 2 {
      return Failed(RuleFormatError);
    }
    var dayTokens := Split(parts[1], ',');
    var parsedDays := ParseField(dayTokens, DayField);
    if parsedDays.None? {
      return Failed(RuleFormatError);
    }
    var days := SortAscending(parsedDays.value);
    SameElems(days, parsedDays.value);
    forall i | 0 <= i < |days| ensures -2 <= days[i] <= 31 && days[i] != 0 {
      assert InRange(DayField, days[i]);
    }
    var taskDate := ParseDate(date);
    if taskDate.None? {
      return Failed(DateFormatError);
    }
    var start := SearchStart(taskDate.value, now);
    var anchor := CheckFirstMonth(days, start);
    var from := anchor;
    ghost var monthSet: Option<set<int>> := None;
    if |parts| == 3 {
      var monthTokens := Split(parts[2], ',');
      var parsedMonths := ParseField(monthTokens, MonthField);
      if parsedMonths.None? {
        return Failed(RuleFormatError);
      }
      var months := SortAscending(parsedMonths.value);
      SameElems(months, parsedMonths.value);
      forall i | 0 <= i < |months| ensures 1 <= months[i] <= 12 {
        assert InRange(MonthField, months[i]);
      }
      ghost var j;
      from, j := StepMonths(anchor, months);
      monthSet := Some(Elems(months));
      assert MonthPhase(anchor, monthSet, from);
    }
    var t := ScanDays(from, days);
    assert FirstMonthAnchor(Elems(days), start, anchor) && MonthPhase(anchor, monthSet, from)
           && ScanFrom(Elems(days), from, t);
    r := Done(FormatDate(t));
  }

  /** The switch over the rule kinds. */
  method Resolve(repeat: string, date: string, now: Date, live: bool) returns (r: Reply)
    requires Valid(now)
    ensures Resolves(repeat, date, now, live, r)
  {
    if HasPrefix(repeat, "d ") {
      r := ResolveDaily(repeat, date, now, live);
    } else if repeat == "y" {
      r := ResolveYearly(date, now, live);
    } else if HasPrefix(repeat, "w ") {
      r := ResolveWeekly(repeat, date, now);
    } else if HasPrefix(repeat, "m ") {
      r := ResolveMonthly(repeat, date, now);
    } else if repeat == "" {
      r := Done("");
    } else {
      r := Failed(RuleFormatError);
    }
  }
}
