/**
 * What the resolver promises, stated over the predicates of module
 * Resolver: the answer of `d N` and `y` is the first step from the base
 * that is not before now, the answer of `w` the first listed weekday from
 * the search start, and the answer of `m` the result of the month search's
 * three phases; each is determined by the inputs, and an empty rule, and
 * only an empty rule, answers with no date.
 */
module Properties {
  import opened Wrappers
  import opened Text
  import opened Calendar
  import opened Layout
  import opened Lists
  import opened Resolver

  // ---------------------------------------------------------------- d N

  /**
   * The answer of `d N` is the earliest date a positive multiple of N days
   * after the base that is not before now.
   */
  lemma DailyNextIsFirst(base: Date, n: int, now: Date, live: bool, r: Date, k: nat)
    requires n >= 1 && DailyNext(base, n, now, live, r) && k >= 1
    ensures !DayBeforeNow(Ordinal(base) + k * n, now, live) ==> Ordinal(r) <= Ordinal(base) + k * n
  {
    var kr: nat :| DailyStop(base, n, now, live, r, kr);
    if k < kr {
      MulLe(k, kr - 1, n);
      MulPred(kr, n);
    } else {
      MulLe(kr, k, n);
    }
  }

  /** `d N` has one answer only. */
  lemma DailyNextUnique(base: Date, n: int, now: Date, live: bool, r1: Date, r2: Date)
    requires n >= 1
    requires DailyNext(base, n, now, live, r1) && DailyNext(base, n, now, live, r2)
    ensures r1 == r2
  {
    var k1: nat :| DailyStop(base, n, now, live, r1, k1);
    var k2: nat :| DailyStop(base, n, now, live, r2, k2);
    DailyNextIsFirst(base, n, now, live, r1, k2);
    DailyNextIsFirst(base, n, now, live, r2, k1);
    SameDay(r1, r2);
  }

  /**
   * The answer of `d N` is where the source's loop stops: k steps of
   * AddDate(0, 0, N) from the base, and after k - 1 steps the date was
   * still before now.
   */
  lemma DailyNextIsStepping(base: Date, n: int, now: Date, live: bool, r: Date, k: nat)
    requires Valid(base) && DailyStop(base, n, now, live, r, k)
    ensures r == DaySteps(base, n, k) && Before(base, r) == (n >= 1)
    ensures k > 1 ==> BeforeNow(DaySteps(base, n, k - 1), now, live)
  {
    DayStepsOrdinal(base, n, k);
    SameDay(r, DaySteps(base, n, k));
    if k > 1 {
      DayStepsOrdinal(base, n, k - 1);
      MulPred(k, n);
    }
    if n >= 1 {
      MulLe(1, k, n);
    } else {
      MulLe(0, k, -n);
    }
  }

  // ---------------------------------------------------------------- y

  /** The answer of `y` is the earliest yearly date of the base that is not before now. */
  lemma YearlyNextIsFirst(base: Date, now: Date, live: bool, r: Date, k: nat)
    requires Valid(base) && YearlyNext(base, now, live, r) && k >= 1
    ensures !BeforeNow(YearDate(base, k), now, live) ==> Ordinal(r) <= Ordinal(YearDate(base, k))
  {
    var kr := r.year - base.year;
    YearStepsShape(base, k);
    YearStepsShape(base, kr);
    if k < kr {
      YearStepsShape(base, kr - 1);
      OrderIsLex(YearDate(base, k), YearDate(base, kr - 1));
    } else {
      OrderIsLex(YearDate(base, k), r);
    }
  }

  /** `y` has one answer only. */
  lemma YearlyNextUnique(base: Date, now: Date, live: bool, r1: Date, r2: Date)
    requires Valid(base) && YearlyNext(base, now, live, r1) && YearlyNext(base, now, live, r2)
    ensures r1 == r2
  {
    var k1, k2 := r1.year - base.year, r2.year - base.year;
    assert k1 >= 1 && r1 == YearDate(base, k1) && !BeforeNow(r1, now, live);
    assert k2 >= 1 && r2 == YearDate(base, k2) && !BeforeNow(r2, now, live);
    YearlyNextIsFirst(base, now, live, r1, k2);
    YearlyNextIsFirst(base, now, live, r2, k1);
    assert Ordinal(r1) == Ordinal(r2);
    YearDateValid(base, k1);
    YearDateValid(base, k2);
    SameDay(r1, r2);
  }

  /**
   * The answer of `y` is the base's month and day in a later year (1 March
   * for a base of 29 February), and not before now.
   */
  lemma YearlyNextMeaning(base: Date, now: Date, live: bool, r: Date)
    requires Valid(base) && YearlyNext(base, now, live, r)
    ensures Valid(r) && r.year > base.year && !BeforeNow(r, now, live)
    ensures base.month == 2 && base.day == 29 ==> r.month == 3 && r.day == 1
    ensures !(base.month == 2 && base.day == 29) ==> r.month == base.month && r.day == base.day
  {
    YearStepsShape(base, r.year - base.year);
  }

  // ---------------------------------------------------------------- w

  /** `w` has one answer only. */
  lemma WeeklyNextUnique(start: Date, weekdays: set<int>, r1: Date, r2: Date)
    requires WeeklyNext(start, weekdays, r1) && WeeklyNext(start, weekdays, r2)
    ensures r1 == r2
  {
    assert !Before(r1, r2);
    assert !Before(r2, r1);
    SameDay(r1, r2);
  }

  /** The answer of `w` comes within a week of the search start. */
  lemma WeeklyWithinWeek(start: Date, weekdays: set<int>, r: Date, w: int)
    requires Valid(start) && WeeklyNext(start, weekdays, r)
    requires w in weekdays && 0 <= w < 7
    ensures Ordinal(start) <= Ordinal(r) < Ordinal(start) + 7
  {
    var k := WeekdayAhead(start, w);
    var d := AddDays(start, k);
    assert Weekday(d) == w && !Before(d, r);
  }

  // ---------------------------------------------------------------- m

  lemma AnchorUnique(days: set<int>, t: Date, a: Date, b: Date)
    requires Valid(t) && FirstMonthAnchor(days, t, a) && FirstMonthAnchor(days, t, b)
    ensures a == b
  {
    OrderIsLex(a, b);
    OrderIsLex(b, a);
    assert !Before(a, b);
    assert !Before(b, a);
    SameDay(a, b);
  }

  lemma ScanFromUnique(days: set<int>, a: Date, r1: Date, r2: Date)
    requires ScanFrom(days, a, r1) && ScanFrom(days, a, r2)
    ensures r1 == r2
  {
    assert !Before(r1, r2);
    assert !Before(r2, r1);
    SameDay(r1, r2);
  }

  lemma MonthPhaseUnique(a: Date, months: Option<set<int>>, b1: Date, b2: Date)
    requires MonthPhase(a, months, b1) && MonthPhase(a, months, b2)
    ensures b1 == b2
  {
    if months.Some? {
      var ms := months.value;
      var j1: nat :| b1 == MonthSteps(a, j1) && ListedMonthAfter(a, ms, j1);
      var j2: nat :| b2 == MonthSteps(a, j2) && ListedMonthAfter(a, ms, j2);
      assert MonthSteps(a, j1).month in ms && MonthSteps(a, j2).month in ms;
      assert j1 == j2;
    }
  }

  /** `m` has one answer only. */
  lemma MonthlyNextUnique(days: set<int>, months: Option<set<int>>, start: Date, r1: Date, r2: Date)
    requires Valid(start)
    requires MonthlyNext(days, months, start, r1) && MonthlyNext(days, months, start, r2)
    ensures r1 == r2
  {
    var a1, a2 :| FirstMonthAnchor(days, start, a1) && MonthPhase(a1, months, a2) && ScanFrom(days, a2, r1);
    var b1, b2 :| FirstMonthAnchor(days, start, b1) && MonthPhase(b1, months, b2) && ScanFrom(days, b2, r2);
    AnchorUnique(days, start, a1, b1);
    MonthPhaseUnique(a1, months, a2, b2);
    ScanFromUnique(days, a2, r1, r2);
  }

  /**
   * The answer of `m` is a date from the search start on whose day of the
   * month is listed (-1 and -2 counted from the end of its own month).
   */
  lemma MonthlyNextMeaning(days: set<int>, months: Option<set<int>>, start: Date, r: Date)
    requires Valid(start) && MonthlyNext(days, months, start, r)
    ensures Valid(r) && !Before(r, start) && DayListed(r, days)
  {
    var a1, a2 :| FirstMonthAnchor(days, start, a1) && MonthPhase(a1, months, a2) && ScanFrom(days, a2, r);
    if months.Some? {
      var j: nat :| a2 == MonthSteps(a1, j) && ListedMonthAfter(a1, months.value, j);
      MonthStepsForward(a1, j);
    }
  }

  /**
   * The month list steers only where the day search starts: for `m 31 2,4`
   * searched from 1 February 2026 the month phase stops in April, which has
   * no 31st, and the day search runs on to 31 May.
   */
  lemma MonthListNotEnforced()
    ensures MonthlyNext({31}, Some({2, 4}), Date(2026, 2, 1), Date(2026, 5, 31))
    ensures 5 !in {2, 4}
  {
    var start, a1, a2, r := Date(2026, 2, 1), Date(2026, 3, 1), Date(2026, 4, 1), Date(2026, 5, 31);
    forall t | Valid(t) && !Before(t, start) && Before(t, a1) ensures !DayListed(t, {31}) {
      OrderIsLex(t, a1);
    }
    assert FirstMonthAnchor({31}, start, a1);
    MonthLaterShape(a1);
    assert MonthSteps(a1, 1) == a2;
    assert ListedMonthAfter(a1, {2, 4}, 1);
    assert MonthPhase(a1, Some({2, 4}), a2);
    forall t | Valid(t) && !Before(t, a2) && Before(t, r) ensures !DayListed(t, {31}) {
      OrderIsLex(t, r);
    }
    assert ScanFrom({31}, a2, r);
  }

  /**
   * The month phase can pass over a listed day of a listed month: from
   * 31 January 2025, `m 1,31 2` keeps the 31st, steps by AddDate(0, 1, 0)
   * to 3 March 2025 and on to 3 February 2026, and answers 1 March 2026,
   * a year after 1 February 2025, which is listed in both lists.
   */
  lemma MonthPhaseSkipsListedDay()
    ensures MonthlyNext({1, 31}, Some({2}), Date(2025, 1, 31), Date(2026, 3, 1))
    ensures Valid(Date(2025, 2, 1)) && DayListed(Date(2025, 2, 1), {1, 31}) && 2 in {2}
    ensures Before(Date(2025, 1, 31), Date(2025, 2, 1)) && Before(Date(2025, 2, 1), Date(2026, 3, 1))
  {
    var start, a2, r := Date(2025, 1, 31), Date(2026, 2, 3), Date(2026, 3, 1);
    PlainDays(start, {1, 31});
    assert FirstMonthAnchor({1, 31}, start, start);
    January31Step(start);
    FebruaryReached(start);
    FebruaryScan(a2, r);
    PlainDays(Date(2025, 2, 1), {1, 31});
  }

  /** From a January date whose month step lands on 3 March 2025, the month phase for `2` stops at 3 February 2026. */
  lemma FebruaryReached(start: Date)
    requires Valid(start) && start.month == 1 && MonthLater(start) == Date(2025, 3, 3)
    ensures MonthPhase(start, Some({2}), Date(2026, 2, 3))
  {
    var s := Date(2025, 3, 3);
    forall i | 0 <= i < 12 ensures MonthSteps(start, i).month !in {2} {
      if i > 0 {
        ThirdsOn(start, i, s);
        MonthStepsForward(start, i);
      }
    }
    ThirdsOn(start, 12, s);
    MonthStepsForward(start, 12);
    assert ListedMonthAfter(start, {2}, 12);
  }

  /** From 3 February 2026 the first 1st or 31st is 1 March 2026. */
  lemma FebruaryScan(a2: Date, r: Date)
    requires a2 == Date(2026, 2, 3) && r == Date(2026, 3, 1)
    ensures ScanFrom({1, 31}, a2, r)
  {
    forall t | Valid(t) && !Before(t, a2) && Before(t, r) ensures !DayListed(t, {1, 31}) {
      OrderIsLex(t, a2);
      OrderIsLex(t, r);
      CommonYears();
      assert t.year == 2026 && t.month == 2 && 3 <= t.day <= 28;
      PlainDays(t, {1, 31});
    }
    PlainDays(r, {1, 31});
  }

  /** A date's month counted from January of year 0. */
  function MonthIndex(t: Date): int {
    12 * t.year + t.month - 1
  }

  /** Once a month step lands on a 3rd, every further step moves one month and keeps the 3rd. */
  lemma {:induction false} ThirdsOn(u: Date, k: nat, s: Date)
    requires 1 <= k && Valid(s) && s.day == 3 && MonthLater(u) == s
    ensures MonthSteps(u, k).day == 3 && MonthIndex(MonthSteps(u, k)) == MonthIndex(s) + k - 1
  {
    if k > 1 {
      ThirdsOn(u, k - 1, s);
      var p := MonthSteps(u, k - 1);
      assert MonthSteps(u, k) == MonthLater(p);
      assert Valid(p) by {
        if k - 1 > 1 {
          assert p == MonthLater(MonthSteps(u, k - 2));
        }
      }
      ThirdStep(p);
    }
  }

  /** With no negative entry, a date is listed exactly when its day is. */
  lemma PlainDays(t: Date, days: set<int>)
    requires forall v :: v in days ==> v >= 0
    ensures DayListed(t, days) <==> t.day in days
  {
    if t.day in days {
      assert ResolveDay(t.day, t.year, t.month) == t.day;
    }
  }

  /** A month step from 31 January 2025 overflows February into March. */
  lemma January31Step(t: Date)
    requires t == Date(2025, 1, 31)
    ensures MonthLater(t) == Date(2025, 3, 3)
  {
    CommonYears();
    MonthLaterShape(t);
    assert NextMonth(2025, 1) == (2025, 2) && NextMonth(2025, 2) == (2025, 3);
  }

  /** 2025 and 2026 are not leap years. */
  lemma CommonYears()
    ensures DaysIn(2025, 2) == 28 && DaysIn(2026, 2) == 28
  {
    assert 2025 % 4 == 1 by { assert 2025 == 4 * 506 + 1; }
    assert 2026 % 4 == 2 by { assert 2026 == 4 * 506 + 2; }
  }

  /** A month step from the 3rd lands on the 3rd of the next month. */
  lemma ThirdStep(u: Date)
    requires Valid(u) && u.day == 3
    ensures MonthLater(u) == Date(NextMonth(u.year, u.month).0, NextMonth(u.year, u.month).1, 3)
  {
    MonthLaterShape(u);
  }

  // ---------------------------------------------------------------- the whole resolver

  /** The resolver's answer is determined by its inputs. */
  lemma ResolvesUnique(repeat: string, date: string, now: Date, live: bool, r1: Reply, r2: Reply)
    requires Valid(now) && Resolves(repeat, date, now, live, r1) && Resolves(repeat, date, now, live, r2)
    ensures r1 == r2
  {
    if HasPrefix(repeat, "d ") {
      DailyReplyUnique(repeat, date, now, live, r1, r2);
    } else if repeat == "y" {
      YearlyReplyUnique(date, now, live, r1, r2);
    } else if HasPrefix(repeat, "w ") {
      WeeklyReplyUnique(repeat, date, now, r1, r2);
    } else if HasPrefix(repeat, "m ") {
      MonthlyReplyUnique(repeat, date, now, r1, r2);
    }
  }

  lemma DailyReplyUnique(repeat: string, date: string, now: Date, live: bool, r1: Reply, r2: Reply)
    requires Valid(now) && DailyReply(repeat, date, now, live, r1) && DailyReply(repeat, date, now, live, r2)
    ensures r1 == r2
  {
    var parsed := Atoi(TrimPrefix(repeat, "d "));
    if parsed.Some? && parsed.value < 400 && ParseDate(date).Some? && parsed.value >= 1 {
      var base, n := ParseDate(date).value, parsed.value;
      var t1 :| DailyNext(base, n, now, live, t1) && r1 == Done(FormatDate(t1));
      var t2 :| DailyNext(base, n, now, live, t2) && r2 == Done(FormatDate(t2));
      DailyNextUnique(base, n, now, live, t1, t2);
    }
  }

  lemma YearlyReplyUnique(date: string, now: Date, live: bool, r1: Reply, r2: Reply)
    requires Valid(now) && YearlyReply(date, now, live, r1) && YearlyReply(date, now, live, r2)
    ensures r1 == r2
  {
    if ParseDate(date).Some? {
      var base := ParseDate(date).value;
      var t1 :| YearlyNext(base, now, live, t1) && r1 == Done(FormatDate(t1));
      var t2 :| YearlyNext(base, now, live, t2) && r2 == Done(FormatDate(t2));
      YearlyNextUnique(base, now, live, t1, t2);
    }
  }

  lemma WeeklyReplyUnique(repeat: string, date: string, now: Date, r1: Reply, r2: Reply)
    requires Valid(now) && WeeklyReply(repeat, date, now, r1) && WeeklyReply(repeat, date, now, r2)
    ensures r1 == r2
  {
    var tokens := Split(TrimPrefix(repeat, "w "), ',');
    if AllAccepted(tokens, WeekdayField) && ParseDate(date).Some? {
      var start := SearchStart(ParseDate(date).value, now);
      var ws := ValueSet(tokens, WeekdayField);
      var t1 :| WeeklyNext(start, ws, t1) && r1 == Done(FormatDate(t1));
      var t2 :| WeeklyNext(start, ws, t2) && r2 == Done(FormatDate(t2));
      WeeklyNextUnique(start, ws, t1, t2);
    }
  }

  lemma MonthlyReplyUnique(repeat: string, date: string, now: Date, r1: Reply, r2: Reply)
    requires Valid(now) && MonthlyReply(repeat, date, now, r1) && MonthlyReply(repeat, date, now, r2)
    ensures r1 == r2
  {
    var parts := Split(repeat, ' ');
    if 2 <= |parts| <= 3 {
      var dayTokens := Split(parts[1], ',');
      var monthTokens := if |parts| == 3 then Split(parts[2], ',') else [];
      if AllAccepted(dayTokens, DayField) && ParseDate(date).Some?
         && (|parts| == 3 ==> AllAccepted(monthTokens, MonthField)) {
        var start := SearchStart(ParseDate(date).value, now);
        var days := ValueSet(dayTokens, DayField);
        var months := if |parts| == 3 then Some(ValueSet(monthTokens, MonthField)) else None;
        var t1 :| MonthlyNext(days, months, start, t1) && r1 == Done(FormatDate(t1));
        var t2 :| MonthlyNext(days, months, start, t2) && r2 == Done(FormatDate(t2));
        MonthlyNextUnique(days, months, start, t1, t2);
      }
    }
  }

  /** An empty rule, and only an empty rule, answers with the empty string: the task does not repeat. */
  lemma EmptyRuleMeansNoRepeat(repeat: string, date: string, now: Date, live: bool, r: Reply)
    requires Valid(now) && Resolves(repeat, date, now, live, r)
    ensures r == Done("") <==> repeat == ""
  {
  }

  /**
   * A date answer is never before now; `w` and `m` answer strictly after
   * now, and `d N` (N >= 1) and `y` strictly after the task date.
   */
  lemma AnswerIsAhead(repeat: string, date: string, now: Date, live: bool, r: Reply) returns (t: Date)
    requires Valid(now) && Resolves(repeat, date, now, live, r)
    requires r.Done? && repeat != ""
    ensures Valid(t) && r.value == FormatDate(t) && !BeforeNow(t, now, live)
    ensures !HasPrefix(repeat, "d ") && repeat != "y" ==> Before(now, t)
    ensures ParseDate(date).Some? && (repeat == "y" || (HasPrefix(repeat, "d ") && Atoi(TrimPrefix(repeat, "d ")).value >= 1))
            ==> Before(ParseDate(date).value, t)
  {
    if HasPrefix(repeat, "d ") {
      t := DailyAhead(repeat, date, now, live, r);
    } else if repeat == "y" {
      var base := ParseDate(date).value;
      t :| YearlyNext(base, now, live, t) && r == Done(FormatDate(t));
      YearlyNextMeaning(base, now, live, t);
      OrderIsLex(base, t);
    } else if HasPrefix(repeat, "w ") {
      var tokens := Split(TrimPrefix(repeat, "w "), ',');
      var start := SearchStart(ParseDate(date).value, now);
      t :| WeeklyNext(start, ValueSet(tokens, WeekdayField), t) && r == Done(FormatDate(t));
    } else {
      t := MonthlyAhead(repeat, date, now, r);
    }
  }

  lemma DailyAhead(repeat: string, date: string, now: Date, live: bool, r: Reply) returns (t: Date)
    requires Valid(now) && DailyReply(repeat, date, now, live, r) && r.Done?
    ensures ParseDate(date).Some? && Atoi(TrimPrefix(repeat, "d ")).Some?
    ensures Valid(t) && r.value == FormatDate(t) && !BeforeNow(t, now, live)
    ensures Atoi(TrimPrefix(repeat, "d ")).value >= 1 ==> Before(ParseDate(date).value, t)
  {
    var n := Atoi(TrimPrefix(repeat, "d ")).value;
    var base := ParseDate(date).value;
    if n >= 1 {
      t :| DailyNext(base, n, now, live, t) && r == Done(FormatDate(t));
      var k: nat :| DailyStop(base, n, now, live, t, k);
      DailyNextIsStepping(base, n, now, live, t, k);
    } else {
      t := AddDays(base, n);
    }
  }

  lemma MonthlyAhead(repeat: string, date: string, now: Date, r: Reply) returns (t: Date)
    requires Valid(now) && MonthlyReply(repeat, date, now, r) && r.Done?
    ensures Valid(t) && r.value == FormatDate(t) && Before(now, t)
  {
    var parts := Split(repeat, ' ');
    var dayTokens := Split(parts[1], ',');
    var monthTokens := if |parts| == 3 then Split(parts[2], ',') else [];
    var start := SearchStart(ParseDate(date).value, now);
    var days := ValueSet(dayTokens, DayField);
    var months := if |parts| == 3 then Some(ValueSet(monthTokens, MonthField)) else None;
    t :| MonthlyNext(days, months, start, t) && r == Done(FormatDate(t));
    MonthlyNextMeaning(days, months, start, t);
  }

  /**
   * Rescheduling a task onto the reference day itself moves it strictly
   * forward, for every non-empty rule except `d N` with N <= 0.
   */
  lemma RescheduleMovesOn(repeat: string, date: string, now: Date, live: bool, r: Reply) returns (t: Date)
    requires Valid(now) && Resolves(repeat, date, now, live, r) && ParseDate(date) == Some(now)
    requires r.Done? && repeat != ""
    requires HasPrefix(repeat, "d ") ==> Atoi(TrimPrefix(repeat, "d ")).value >= 1
    ensures r.value == FormatDate(t) && Before(now, t)
  {
    t := AnswerIsAhead(repeat, date, now, live, r);
  }

  /** The day limit sits exactly at 400: `d 400` is refused for it and `d 399` is not. */
  lemma DayLimitBoundary(date: string, now: Date, live: bool, r: Reply)
    requires Valid(now)
    ensures Resolves("d 400", date, now, live, r) <==> r == Failed(DayLimitError)
    ensures Resolves("d 399", date, now, live, r) ==> r != Failed(DayLimitError)
  {
    assert HasPrefix("d 400", "d ") && TrimPrefix("d 400", "d ") == "400";
    assert HasPrefix("d 399", "d ") && TrimPrefix("d 399", "d ") == "399";
    ReadLimits();
  }

  lemma ReadLimits()
    ensures Atoi("400") == Some(400) && Atoi("399") == Some(399)
  {
    assert DigitsValue("400") == 400 by {
      assert "400"[..2] == "40" && "40"[..1] == "4" && "4"[..0] == "";
    }
    assert DigitsValue("399") == 399 by {
      assert "399"[..2] == "39" && "39"[..1] == "3" && "3"[..0] == "";
    }
    assert Unsigned("400") == "400" && Unsigned("399") == "399";
  }

  /**
   * `d N` with N <= 0 and a first step before now has no answer: the
   * source's loop runs forever, as every further step stays before now.
   */
  lemma DivergesForever(repeat: string, date: string, now: Date, live: bool, r: Reply, k: nat)
    requires Valid(now) && Resolves(repeat, date, now, live, r) && r == Diverges
    ensures HasPrefix(repeat, "d ") && ParseDate(date).Some?
    ensures var n := Atoi(TrimPrefix(repeat, "d ")).value;
            n <= 0 && BeforeNow(DaySteps(ParseDate(date).value, n, k + 1), now, live)
  {
    var n := Atoi(TrimPrefix(repeat, "d ")).value;
    var base := ParseDate(date).value;
    NeverCatchesUp(AddDays(base, n), n, now, live, k);
    DayStepsShift(base, n, k);
  }

  /** The first step followed by k more is k + 1 steps. */
  lemma {:induction false} DayStepsShift(t: Date, n: int, k: nat)
    requires Valid(t)
    ensures DaySteps(AddDays(t, n), n, k) == DaySteps(t, n, k + 1)
  {
    if k > 0 {
      var p := DaySteps(AddDays(t, n), n, k - 1);
      DayStepsShift(t, n, k - 1);
      assert p == DaySteps(t, n, k);
      assert DaySteps(AddDays(t, n), n, k) == AddDays(p, n);
    }
  }
}
