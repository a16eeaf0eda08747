/** Calendar dates as day numbers.

    A date is its proleptic Gregorian ordinal, the number that Python's
    `date.toordinal()` gives (day 1 is 0001-01-01, a Monday); adding
    `timedelta(n)` adds `n` to the ordinal and subtracting two dates gives
    the difference of their ordinals in days. */
module Dates {

  /** A calendar date, as a day number. */
  type Date = int

  /** Python's `date.weekday()`: 0 is Monday, 6 is Sunday. */
  function Weekday(d: Date): (w: int)
    ensures 0 <= w < 7
  {
    (d + 6) % 7
  }

  /** Python's `date.isoweekday()`: 1 is Monday, 7 is Sunday. */
  function IsoWeekday(d: Date): (w: int)
    ensures 1 <= w <= 7
    ensures w == Weekday(d) + 1
  {
    Weekday(d) + 1
  }

  /** Euclidean division by 7 has a unique quotient and remainder. */
  lemma DivModSeven(x: int, q: int, r: int)
    requires x == 7 * q + r && 0 <= r < 7
    ensures x % 7 == r && x / 7 == q
  {
  }

  /** Moving `n` days forward from a date moves its weekday `n` steps
      round the week. */
  lemma WeekdayAfter(d: Date, n: int)
    ensures Weekday(d + n) == (Weekday(d) + n) % 7
  {
    var q := (d + 6) / 7;
    DivModSeven(d + 6, q, Weekday(d));
    var k := (Weekday(d) + n) / 7;
    DivModSeven(Weekday(d) + n, k, (Weekday(d) + n) % 7);
    DivModSeven(d + n + 6, q + k, (Weekday(d) + n) % 7);
  }

  /** Shifting a date by whole weeks keeps its weekday. */
  lemma WeekdayShiftWeeks(d: Date, weeks: int)
    ensures Weekday(d + 7 * weeks) == Weekday(d)
  {
    WeekdayAfter(d, 7 * weeks);
    DivModSeven(Weekday(d) + 7 * weeks, weeks, Weekday(d));
  }
}
