# Recurrence dates of the to-do scheduler, modelled in Dafny

The to-do server stores tasks with a date (`YYYYMMDD`, Go layout
`"20060102"`) and a repeat rule. When a task is completed, or added with a
date in the past, its next date is computed from the rule. The rules are:

- `d N`: every N days, with N below 400.
- `y`: every year.
- `w 1,3,...`: on the listed weekdays, 0..7, with 0 and 7 both Sunday.
- `m 1,15,-1 [1,6,...]`: on the listed days of the month, -1 and -2
  counting back from the month's end. The optional month list only chooses
  the month where the final day-by-day scan starts; it does not restrict
  the answer.
- The empty rule: the task does not repeat.

This project models that resolver, as written in `task/task.go`, and proves
what it promises. Two copies exist:

- **`GetNextRepeatDateTest`**: takes "now" as text.
- **`GetNextRepeatDate`**: reads the wall clock. It also fills an empty task
  date with today.

The two copies share the rule logic but differ in three ways:

- where "now" comes from;
- only the test copy can fail on a malformed "now";
- only the live copy fills an empty task date.

Both are modelled by one resolver with a `live` flag.

Files and modules:

- `calendar.dfy` (`Calendar`): the part of Go's `time` package the resolver
  relies on:
  - a proleptic Gregorian day line;
  - `time.Date` normalisation, in which months carry into years by floor
    division and days then carry into neighbouring months;
  - `AddDate`, `Before` and `Weekday`;
  - the last-day-of-month trick `time.Date(y, m+1, 0)`.
- `text.dfy` (`Wrappers`, `Text`): `strings.HasPrefix`, `TrimPrefix` and
  `Split`, `strconv.Atoi` (64-bit range), and zero-padded decimal output.
- `layout.dfy` (`Layout`): `time.Parse` and `Format` with layout `"20060102"`.
- `lists.dfy` (`Lists`): the per-list token loops (range checks, 7 read as
  Sunday), `sort.Slice` on the lists, and the `for range ... break`
  membership loops.
- `resolver.dfy` (`Resolver`):
  - one method per loop of the source, each proved against a predicate that
    says where the loop must stop;
  - one predicate per rule kind saying which reply the rule calls for;
  - the dispatch over the rule kinds.
- `properties.dfy` (`Properties`): what the replies mean.
  - `d N` (N ≥ 1) and `y`: the answer is the first step from the base that
    is not before now; it may equal now in the test copy.
  - `d N` with N ≤ 0: the answer is base+N when that is not before now;
    otherwise the loop diverges, shown by a lemma.
  - `w`: the answer is the first listed weekday from the search start (the
    day after now, or the task date if that is later).
  - `m`: the answer is what the three phases give (the first-month scan,
    the month steps, the final day scan): a listed day, not before the
    search start, but not always the first such date.
  - Every answer is unique, and `w` and `m` answers lie strictly after now.
  - Two counterexample lemmas show what the month list does not promise.
- `task.dfy` (`Tasks`): the `Task` record as a class, with its two entry
  points.

Four behaviours of the code are easy to miss; the model keeps them as
written:

- **`d N` with N ≤ 0.** The guard only rejects N ≥ 400. With N ≤ 0 the first
  candidate is the base plus N days:
  - if that candidate is not before now, it is returned, even though it is
    not after the base;
  - otherwise the loop never ends, because a step of N ≤ 0 days never
    catches up with now.

  The model answers `Diverges` in the second case. `Properties.DivergesForever`
  proves that every further step stays before now. So a rule that passes
  every check of the code can still leave the call without an answer.
- **The month list of `m` does not bind the answer.** After stepping to a
  listed month, the final day-by-day scan looks only at the day list, and it
  can walk into a month that is not listed. For example, `m 31 2` is not
  an error: it gives a date in a later month. The lemma
  `Properties.MonthListNotEnforced` gives an instance: from 1 February 2026,
  `m 31 2,4` answers 31 May 2026.
- **The month phase can skip a listed day.** The first-month scan stops on
  the first listed day of the start month even when that month is not
  listed, and the month steps then start from that day. A step by
  `AddDate(0, 1, 0)` from a 29th, 30th or 31st can overflow a short month,
  so the steps may pass the listed month. The lemma
  `Properties.MonthPhaseSkipsListedDay` gives an instance: from
  31 January 2025, `m 1,31 2` steps to 3 March 2025 and on to 3 February
  2026, and answers 1 March 2026. 1 February 2025 is on a listed day of a
  listed month and comes a year earlier.
- **Order of checks.**
  - `GetNextRepeatDateTest` parses "now" before it looks at the rule, so a
    bad "now" fails even for an empty rule.
  - `w` and `m` read their day lists before the task date.
  - `m` reads its month list only after the task date has parsed and the
    first-month scan has run.

  The reply predicates test these conditions in that order.

"Before now" has two readings. Against an explicit day, the task date must
be an earlier day. Against the wall clock, "now" is an instant during
today, so today's midnight is already before it; a task dated today is
therefore "before now". `Resolver.BeforeNow` models both readings.

## Model

| member | source | states |
|---|---|---|
| Tasks.Task.constructor | task/task.go:12-18 | A task holds exactly the id, date, title, comment and repeat text it was created with |
| Tasks.Task.GetNextRepeatDateTest | task/task.go:242-424 | A "now" that is not a YYYYMMDD date is refused first. Otherwise the reply is the one `Resolves` prescribes for the task's rule and date against that day. The task is not changed |
| Tasks.Task.GetNextRepeatDate | task/task.go:27-208 | An empty date becomes today's date in the layout, and nothing else in the task changes. The reply is the one `Resolves` prescribes against the wall clock of today |
| Resolver.Resolve | task/task.go:247-423 | Rules are tried in source order (`d `, `y`, `w `, `m `, empty, anything else), and the reply satisfies `Resolves`, the per-rule reply predicates |
| Resolver.ResolveDaily | task/task.go:248-271 | A non-number after "d " is a rule error; N ≥ 400 is the day-limit error; a bad date is a date error. For N ≥ 1 the answer is the first multiple of N days after the base that is not before now. For N ≤ 0 the answer is base+N, or no answer when that is before now |
| Resolver.ResolveYearly | task/task.go:273-283 | A bad date is a date error; otherwise the answer is the first whole-year step of the base (29 February becoming 1 March) that is not before now |
| Resolver.ResolveWeekly | task/task.go:285-325 | A bad or out-of-range weekday token is a rule error (checked before the date), then a bad date is a date error. Otherwise the answer is the first listed weekday from the search start |
| Resolver.ResolveMonthly | task/task.go:327-418 | Checked in order: two or three space-separated parts, a valid day list, a valid date, then a valid month list, each failure giving its error. Otherwise the answer is the three-phase monthly search from the search start |
| Resolver.StepDays | task/task.go:265-271 | The result is k·N days after the base for some k ≥ 1, is not before now, and the (k-1)-th step was still before now |
| Resolver.DayStepsOrdinal | task/task.go:265-268 | k steps of AddDate(0, 0, N) move exactly k·N days along the day line |
| Resolver.NeverCatchesUp | task/task.go:266-268 | With N ≤ 0, a date before now stays before now however many further steps are taken |
| Resolver.StepYears | task/task.go:279-283 | The result is the base's yearly date k ≥ 1 years on, not before now, with the year before it still before now |
| Resolver.YearStepsShape | task/task.go:279-281 | k steps of AddDate(1, 0, 0) keep month and day, except that 29 February becomes 1 March from the first step on |
| Resolver.SearchStart | task/task.go:306-308 | The search start is the task date when that is after now, and otherwise the day after now: the earliest real date after now that is not before the task date |
| Resolver.WeekdayAhead | task/task.go:311-324 | Every weekday comes up within 7 days of any date, so the weekday loop ends |
| Resolver.ScanWeekdays | task/task.go:311-324 | The result is on a listed weekday, is not before the start, and no date between them is; it is under 7 days from the start |
| Resolver.DayMatches | task/task.go:399-410 | The inner loop finds a match exactly when the day of the month equals some listed entry resolved in that month |
| Resolver.ResolveEntry | task/task.go:400-404 | Entry -1 resolves to the last day of t's month and -2 to the day before it; a non-negative entry stands for itself; in all cases the value is `ResolveDay` |
| Resolver.NegativeEntry | task/task.go:400-404 | The source's steps for a negative entry agree with `ResolveDay` |
| Resolver.CheckFirstMonth | task/task.go:211-238 | The result is the first listed day from t to the end of t's month, or the first of the next month when there is none. No listed day is skipped on the way |
| Resolver.StepMonths | task/task.go:380-393 | After the least number j of AddDate(0, 1, 0) steps the month is listed; no earlier step reached a listed month; the date does not go back; j ≤ 23 |
| Resolver.MonthStepsForward | task/task.go:392 | Every number of month steps gives a valid date not before the start |
| Resolver.ListedDayAhead | task/task.go:398-417 | From any date some later date falls on a given day entry (positive or negative), so the day scan ends |
| Resolver.ScanDays | task/task.go:398-417 | The result falls on a listed day, is not before the start, and no date in between does |
| Lists.ParseField | task/task.go:286-300 | Succeeds exactly when every token parses and passes the list's range check. The values come in token order, 7 is read as 0 for weekdays, and every value is in range |
| Lists.Accept | task/task.go:289-298 | Weekdays accept 0..7 and store 7 as 0; days accept -2..31 except 0; months accept 1..12 |
| Lists.SortAscending | task/task.go:346-348 | The result is sorted ascending and is a permutation of the input |
| Lists.SameElems | task/task.go:346-348 | Sorting keeps exactly the set of listed values |
| Lists.Contains | task/task.go:381-386 | The membership loop reports true exactly when the value is in the list |
| Layout.ParseDate | task/task.go:243 | A parsed date has exactly eight digits, is a real calendar day, and its year is in 0..9999 |
| Layout.FormatDate | task/task.go:271 | The layout writes at least eight characters |
| Layout.FormatThenParse | task/task.go:24 | Every calendar date of the years 0..9999 is written in the layout and read back unchanged |
| Layout.ParseThenFormat | task/task.go:24 | Every accepted string is exactly how its date is written |
| Text.TrimPrefix | task/task.go:249 | With the prefix present the result is the rest after it; without it the text is unchanged |
| Text.Split | task/task.go:286 | Splitting gives at least one piece, and no piece contains the separator |
| Text.JoinSplit | task/task.go:286 | Joining the pieces of a split with the separator gives back the text |
| Text.SplitJoin | task/task.go:328 | Splitting the join of separator-free pieces gives back the pieces |
| Text.Atoi | task/task.go:250 | Atoi accepts only an optional sign followed by digits, with a value in Go's 64-bit int range, and is non-negative without a '-' |
| Text.AtoiDigits | task/task.go:250 | A digit string, bare or after '+', reads as its value when that is at most the 64-bit maximum and is refused otherwise; after '-' it reads as the negated value down to the 64-bit minimum and is refused below it |
| Text.AtoiDecimal | task/task.go:250 | Atoi reads back every 64-bit integer written in decimal |
| Text.PaddedValue | task/task.go:271 | The zero-padded digits denote the number |
| Calendar.AddDate | task/task.go:265 | Time.AddDate adds the fields and normalises, always giving a real date. With only a day count it is `AddDays` (`AddDaysIsAddDate`); with one year it is `YearLaterShape`; with one month it is `MonthLaterShape` |
| Calendar.Before | task/task.go:267 | Time.Before on two midnights is the order of their days on the day line; on real dates that is year-month-day order (`OrderIsLex`) |
| Resolver.BeforeNow | task/task.go:51 | The loop test "before now": with an explicit day, an earlier day; against the wall clock, any day up to and including today |
| Calendar.Weekday | task/task.go:314 | Time.Weekday is 0..6 with Sunday 0, advancing by one each day (`NextWeekday`) and fixed by 1 January 2001 being a Monday (`WeekdayAnchor`) |
| Calendar.YearLater | task/task.go:279-281 | AddDate(1, 0, 0) always gives a real date; its month and day are given by `YearLaterShape` |
| Calendar.MonthLater | task/task.go:392 | AddDate(0, 1, 0) always gives a real date; where it lands is given by `MonthLaterShape` |
| Calendar.ResolveDay | task/task.go:400-404 | A negative entry resolves to a day 1..31 in the month (-1 the last day and -2 the day before it, by `ResolveNegative`); other entries stand for themselves |
| Text.HasPrefix | task/task.go:248 | strings.HasPrefix: the text starts with the prefix; `TrimPrefix` gives back the rest exactly when it holds |
| Lists.InsertInto | task/task.go:346-348 | One insertion step of the sort extends the sorted prefix by one element, keeps the multiset, and leaves the rest of the array unchanged |
| Lists.Swap | task/task.go:346-348 | Exchanges two elements, leaving every other element and the multiset unchanged |
| Calendar.DaysIn | task/task.go:401-403 | A month has 28..31 days, fewer than 30 only in February |
| Calendar.CarryDays | task/task.go:265 | Carrying the day into neighbouring months always gives a real calendar date |
| Calendar.CarryDaysOrdinal | task/task.go:265 | Carrying denotes the same day on the day line as the un-normalised (year, month, day) |
| Calendar.Normalize | task/task.go:401-402 | time.Date with any month and day gives a real calendar date |
| Calendar.NormalizeInRange | task/task.go:401-402 | With the month already in 1..12, time.Date only carries the day |
| Calendar.AddDays | task/task.go:268 | AddDate(0, 0, n) gives a real date exactly n days further on the day line |
| Calendar.AddDaysIsAddDate | task/task.go:268 | AddDays is AddDate with zero years and months |
| Calendar.OrderIsLex | task/task.go:267 | For real dates, Before agrees with year-month-day order |
| Calendar.SameDay | task/task.go:267 | Two real dates on the same day of the day line are equal |
| Calendar.YearLaterShape | task/task.go:279 | AddDate(1, 0, 0) keeps month and day, except that 29 February becomes 1 March |
| Calendar.YearLaterNextYear | task/task.go:281 | A year step gives a real date in the next year |
| Calendar.MonthLaterShape | task/task.go:392 | AddDate(0, 1, 0) keeps the day when the next month has it; otherwise the surplus spills into the month after |
| Calendar.MonthLaterAfter | task/task.go:392 | A month step gives a real date strictly later |
| Calendar.DayLaterShape | task/task.go:232-235 | AddDate(0, 0, 1) gives the next day of the month, or the first of the next month after the last day |
| Calendar.LastDayOfMonth | task/task.go:402 | time.Date(y, m+1, 0) is the last day of month m |
| Calendar.ResolveNegative | task/task.go:400-403 | -1 resolves to the month's last day and -2 to the day before it |
| Calendar.NextWeekday | task/task.go:314 | The day after a date has the next weekday |
| Calendar.WeekdayAnchor | task/task.go:314 | 1 January 2001 is a Monday, as in Go's weekday arithmetic |
| Properties.DailyNextIsFirst | task/task.go:265-271 | No multiple of N days after the base that is not before now comes earlier than the answer of `d N` |
| Properties.DailyNextUnique | task/task.go:265-271 | `d N` (N ≥ 1) has one answer only |
| Properties.DailyNextIsStepping | task/task.go:265-271 | The stopping date is exactly the k-th AddDate(0, 0, N) step, after the base exactly when N ≥ 1, with the previous step still before now |
| Properties.DayStepsShift | task/task.go:265-268 | The first step followed by k more is k+1 steps |
| Properties.YearlyNextIsFirst | task/task.go:279-283 | No yearly date of the base that is not before now comes earlier than the answer of `y` |
| Properties.YearlyNextUnique | task/task.go:279-283 | `y` has one answer only |
| Properties.YearlyNextMeaning | task/task.go:279-283 | The answer of `y` lies in a later year, is not before now, and has the base's month and day (1 March for a base of 29 February) |
| Properties.WeeklyNextUnique | task/task.go:311-324 | `w` has one answer only |
| Properties.WeeklyWithinWeek | task/task.go:311-324 | The answer of `w` comes within a week of the search start |
| Properties.AnchorUnique | task/task.go:211-238 | checkFirstMonth's result is determined by its inputs |
| Properties.ScanFromUnique | task/task.go:398-417 | The final day scan's result is determined by its inputs |
| Properties.MonthPhaseUnique | task/task.go:362-395 | The month phase's result is determined by its inputs |
| Properties.MonthlyNextUnique | task/task.go:355-418 | `m` has one answer only |
| Properties.MonthlyNextMeaning | task/task.go:355-418 | The answer of `m` is a real date, not before the search start, on a day listed for its own month |
| Properties.MonthListNotEnforced | task/task.go:362-417 | From 1 February 2026, `m 31 2,4` answers 31 May 2026, whose month is not listed |
| Properties.MonthPhaseSkipsListedDay | task/task.go:362-417 | From 31 January 2025, `m 1,31 2` answers 1 March 2026, although 1 February 2025, a listed day in a listed month, is later than the start and earlier than the answer |
| Properties.PlainDays | task/task.go:398-404 | When no day entry is negative, a date is on a listed day exactly when its day of the month is in the list |
| Properties.ResolvesUnique | task/task.go:247-423 | The reply is determined by the rule, the date and now |
| Properties.DailyReplyUnique | task/task.go:248-271 | The reply to a `d` rule is determined by its inputs |
| Properties.YearlyReplyUnique | task/task.go:273-283 | The reply to `y` is determined by its inputs |
| Properties.WeeklyReplyUnique | task/task.go:285-325 | The reply to a `w` rule is determined by its inputs |
| Properties.MonthlyReplyUnique | task/task.go:327-418 | The reply to an `m` rule is determined by its inputs |
| Properties.EmptyRuleMeansNoRepeat | task/task.go:419-420 | The reply is the empty string exactly when the rule is empty |
| Properties.AnswerIsAhead | task/task.go:247-418 | Every date answer is a real date, written in the layout, and not before now. `w` and `m` answers are strictly after now; `d N` (N ≥ 1) and `y` answers are strictly after the task date |
| Properties.DailyAhead | task/task.go:248-271 | A `d` answer is not before now, and is after the task date when N ≥ 1 |
| Properties.MonthlyAhead | task/task.go:327-418 | An `m` answer is strictly after now |
| Properties.RescheduleMovesOn | task/task.go:247-418 | A task rescheduled with its date equal to now moves strictly forward for every non-empty rule except `d N` with N ≤ 0 |
| Properties.DayLimitBoundary | task/task.go:254-257 | `d 400` gets the day-limit error whatever the date, and `d 399` never does |
| Properties.DivergesForever | task/task.go:264-269 | No answer arises only for `d N` with N ≤ 0 and a valid date, and then every step of the loop stays before now |

## Left out

- The HTTP handlers, the SQLite repository, the server and `main`: they only
  call the resolver, store tasks or serve requests.
- Time of day, time zones and the monotonic clock. Dates are calendar days.
  The wall clock becomes the `today` parameter of
  `Tasks.Task.GetNextRepeatDate`. Go's `time.Parse` yields UTC while
  `time.Now()` is local, so a task near midnight may see a different
  "today"; this is not modelled.
- Error message text and the wrapped `strconv` errors. Errors are told apart
  only by kind (`Resolver.Error`).
- The debug print of the split `m` rule.
- `Lists.SortAscending`: does not model the algorithm `sort.Slice` uses. The
  model sorts by insertion; only "sorted and a permutation" is stated.
- `Text.Atoi`: does not model the 32-bit `int` of 32-bit targets; the
  range is that of Go's 64-bit `int`.
- Go's `int` overflow in the date arithmetic of `time` (years far beyond
  ±292 billion) is not modelled; integers are unbounded.
- `Layout.FormatDate`: states only the width, not the exact text for years
  outside 0..9999. Round trips are proved for 0..9999, the only years
  `time.Parse` with this layout can produce.
- `Properties.EmptyRuleMeansNoRepeat`: follows directly from the width of
  `Layout.FormatDate`, so it needs no proof steps of its own.
- Non-termination is modelled as the reply `Diverges`. The loop itself is not
  executed forever; `Properties.DivergesForever` proves that it never ends.
