/** The date range a timetable request shows.

    Without a usable range in the request, the page shows whole ISO weeks:
    from the Monday `weeks_prior` weeks before the current week to the
    Sunday `weeks_after` weeks after it. A requested range is kept only
    when it runs forwards and spans at most `MaxInterval` days. */
module Interval {
  import opened Dates
  import opened Wrappers

  /** `TeamCalendar.MAX_INTERVAL`, in days. */
  const MaxInterval: int := 60

  /** `find_default_start`: the Monday of the ISO week that holds the day
      `7 * weeks` days before `today`. */
  function FindDefaultStart(today: Date, weeks: int): (start: Date)
    ensures Weekday(start) == 0
    ensures today - 7 * weeks - 6 <= start <= today - 7 * weeks
  {
    var offset := (IsoWeekday(today) - 1) + 7 * weeks;
    WeekdayAfter(today, -offset);
    WeekdayShiftWeeks(today - Weekday(today), -weeks);
    WeekdayAfter(today, -Weekday(today));
    today - offset
  }

  /** `find_default_end`: the Sunday of the ISO week that holds the day
      `7 * weeks` days after `today`. */
  function FindDefaultEnd(today: Date, weeks: int): (end: Date)
    ensures Weekday(end) == 6
    ensures today + 7 * weeks <= end <= today + 7 * weeks + 6
  {
    var offset := (7 - IsoWeekday(today)) + 7 * weeks;
    WeekdayShiftWeeks(today + (6 - Weekday(today)), weeks);
    WeekdayAfter(today, 6 - Weekday(today));
    today + offset
  }

  /** Each extra week of `weeks_prior` moves the default start back by
      exactly one week, and each extra week of `weeks_after` moves the
      default end forward by one; with no weeks the range is the current
      week, Monday to Sunday. */
  lemma DefaultsByWeek(today: Date, weeks: int)
    ensures FindDefaultStart(today, weeks) == FindDefaultStart(today, 0) - 7 * weeks
    ensures FindDefaultEnd(today, weeks) == FindDefaultEnd(today, 0) + 7 * weeks
    ensures FindDefaultEnd(today, 0) - FindDefaultStart(today, 0) == 6
  {
  }

  /** Why a requested range was replaced by the default. */
  datatype RangeWarning =
    | NoWarning
    | NegativeInterval        // "Negative time interval selected. Using default."
    | IntervalTooBig(days: int)  // "Too big time interval selected (...). Using default."

  datatype Range = Range(from: Date, to: Date, warning: RangeWarning)

  /** The range check of `process_request`. A missing `from_date` or
      `to_date` argument is first replaced by its default; the resulting
      range is kept when `0 <= to - from <= MaxInterval`, and otherwise
      both ends are reset to their defaults and a warning says why. */
  function ResolveRange(fromArg: Option<Date>, toArg: Option<Date>, today: Date,
                        weeksPrior: int, weeksAfter: int): (r: Range)
    ensures var from := if fromArg.Some? then fromArg.value else FindDefaultStart(today, weeksPrior);
            var to := if toArg.Some? then toArg.value else FindDefaultEnd(today, weeksAfter);
            && (r.warning == NoWarning <==> 0 <= to - from <= MaxInterval)
            && (r.warning == NegativeInterval <==> to < from)
            && (r.warning.IntervalTooBig? <==> to - from > MaxInterval)
            && (r.warning == NoWarning ==> r.from == from && r.to == to)
            && (r.warning != NoWarning ==>
                  r.from == FindDefaultStart(today, weeksPrior) && r.to == FindDefaultEnd(today, weeksAfter))
  {
    var from := if fromArg.Some? then fromArg.value else FindDefaultStart(today, weeksPrior);
    var to := if toArg.Some? then toArg.value else FindDefaultEnd(today, weeksAfter);
    var delta := to - from;
    var warning := if delta < 0 then NegativeInterval
                   else if delta > MaxInterval then IntervalTooBig(delta)
                   else NoWarning;
    if warning == NoWarning then Range(from, to, warning)
    else Range(FindDefaultStart(today, weeksPrior), FindDefaultEnd(today, weeksAfter), warning)
  }

  /** With non-negative week settings a resolved range never runs
      backwards, and a range that fell back to the defaults holds today. */
  lemma ResolvedRangeIsOrdered(fromArg: Option<Date>, toArg: Option<Date>, today: Date,
                               weeksPrior: nat, weeksAfter: nat)
    ensures var r := ResolveRange(fromArg, toArg, today, weeksPrior, weeksAfter);
            && r.from <= r.to
            && (r.warning != NoWarning ==> r.from <= today <= r.to)
  {
  }
}
