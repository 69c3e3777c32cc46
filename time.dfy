/** The Option datatype used wherever the source has a value that may be missing. */
module Wrappers {
  datatype Option<+T> = None | Some(value: T)
}

/**
 * Local civil time of the business, at the fixed offset UTC-3 (no daylight saving).
 * An instant is a whole number of minutes since 1970-01-01 00:00 local time; a date
 * is a day index, day 0 being 1970-01-01.
 */
module Time {
  const MinutesPerDay: int := 1440
  /** 1970-01-01 was a Thursday; weekdays are numbered from Sunday = 0, as in JavaScript. */
  const EpochWeekday: int := 4
  const Sunday: int := 0
  const Monday: int := 1

  /** The local calendar day of an instant. */
  function Day(t: int): int
  {
    t / MinutesPerDay
  }

  /** Minutes since local midnight. */
  function MinuteOfDay(t: int): (m: int)
    ensures 0 <= m < MinutesPerDay
  {
    t % MinutesPerDay
  }

  /** The local hour, as `moment.hour()` reports it. */
  function HourOf(t: int): (h: int)
    ensures 0 <= h < 24
  {
    MinuteOfDay(t) / 60
  }

  /** The instant at `minute` minutes past midnight of `day`. */
  function At(day: int, minute: int): (t: int)
    requires 0 <= minute < MinutesPerDay
    ensures Day(t) == day && MinuteOfDay(t) == minute
  {
    day * MinutesPerDay + minute
  }

  /** Weekday of a day index: 0 = Sunday ... 6 = Saturday, as `Date.getDay()`. */
  function Weekday(day: int): (w: int)
    ensures 0 <= w < 7
  {
    (day + EpochWeekday) % 7
  }

  lemma {:induction false} WeekdayNext(day: int)
    ensures Weekday(day + 1) == (Weekday(day) + 1) % 7
    ensures Weekday(day + 7) == Weekday(day)
  {
    var q := (day + EpochWeekday) / 7;
    assert day + EpochWeekday == 7 * q + Weekday(day);
    assert day + 1 + EpochWeekday == 7 * q + (Weekday(day) + 1);
    assert day + 7 + EpochWeekday == 7 * (q + 1) + Weekday(day);
  }

  /** An instant is its day's midnight plus its minute of the day. */
  lemma Decompose(t: int)
    ensures t == At(Day(t), MinuteOfDay(t))
  {
  }

  /** Moving forward `delta` minutes without passing midnight stays on the same day. */
  lemma SameDay(t: int, delta: int)
    requires 0 <= delta && MinuteOfDay(t) + delta < MinutesPerDay
    ensures Day(t + delta) == Day(t)
    ensures MinuteOfDay(t + delta) == MinuteOfDay(t) + delta
  {
    assert t + delta == At(Day(t), MinuteOfDay(t) + delta);
  }

  /**
   * `checkOverlap` (lib/calendar.js): the half-open intervals [startA, endA) and
   * [startB, endB) overlap.
   */
  predicate Overlaps(startA: int, endA: int, startB: int, endB: int)
  {
    startA < endB && endA > startB
  }

  /** The minute `t` lies in the half-open interval [start, end). */
  predicate Contains(start: int, end: int, t: int)
  {
    start <= t < end
  }

  /**
   * For non-empty intervals the overlap test means what half-open intervals mean:
   * the two share a minute exactly when the test holds.
   */
  lemma OverlapsIffCommonMinute(startA: int, endA: int, startB: int, endB: int)
    requires startA < endA && startB < endB
    ensures Overlaps(startA, endA, startB, endB) <==>
            exists t :: Contains(startA, endA, t) && Contains(startB, endB, t)
  {
    if Overlaps(startA, endA, startB, endB) {
      var t := if startA < startB then startB else startA;
      assert Contains(startA, endA, t) && Contains(startB, endB, t);
    }
  }

  /** Intervals that only touch at an endpoint do not overlap, in either order. */
  lemma TouchingDoNotOverlap(a: int, b: int, c: int)
    ensures !Overlaps(a, b, b, c) && !Overlaps(b, c, a, b)
  {
  }

  lemma OverlapsSymmetric(startA: int, endA: int, startB: int, endB: int)
    ensures Overlaps(startA, endA, startB, endB) == Overlaps(startB, endB, startA, endA)
  {
  }
}
