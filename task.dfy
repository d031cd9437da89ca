/**
 * The repository's unit of work, a task, and its two entry points into the
 * recurrence resolver: one against an explicit "now" given as text (the
 * copy the tests call) and one against the wall clock (the copy the
 * server calls), which also fills in a missing date with today's.
 */
module Tasks {
  import opened Wrappers
  import opened Calendar
  import opened Layout
  import opened Resolver

  /** A stored task; every field is kept as the text the client sent. */
  class Task {
    var id: string
    var date: string
    var title: string
    var comment: string
    var repeat: string

    constructor (id: string, date: string, title: string, comment: string, repeat: string)
      ensures this.id == id && this.date == date && this.title == title
      ensures this.comment == comment && this.repeat == repeat
    {
      this.id := id;
      this.date := date;
      this.title := title;
      this.comment := comment;
      this.repeat := repeat;
    }

    /**
     * The next date of the task against the reference day `now`: a `now`
     * that is not a YYYYMMDD date is refused before the rule is looked at;
     * otherwise the reply is the one the rule calls for, with days compared
     * day against day. The task is left as it is.
     */
    method GetNextRepeatDateTest(now: string) returns (r: Reply)
      ensures ParseDate(now).None? ==> r == Failed(NowFormatError)
      ensures ParseDate(now).Some? ==> Resolves(repeat, date, ParseDate(now).value, false, r)
    {
      var nowTime := ParseDate(now);
      if nowTime.None? {
        return Failed(NowFormatError);
      }
      r := Resolve(repeat, date, nowTime.value, false);
    }

    /**
     * The next date of the task against the wall clock, whose day is
     * `today`: an empty date is first replaced by today's date in the
     * layout (the only change made to the task), and then the reply is the
     * one the rule calls for, with `now` an instant inside `today`.
     */
    method GetNextRepeatDate(today: Date) returns (r: Reply)
      requires Valid(today)
      modifies this
      ensures date == if old(date) == "" then FormatDate(today) else old(date)
      ensures id == old(id) && title == old(title) && comment == old(comment) && repeat == old(repeat)
      ensures Resolves(repeat, date, today, true, r)
    {
      if date == "" {
        date := FormatDate(today);
      }
      r := Resolve(repeat, date, today, true);
    }
  }
}
