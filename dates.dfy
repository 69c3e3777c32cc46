/**
 * The calendar grids of the dashboard (app/page.js:51-63) on day indices: the week of a
 * day, Monday first, and the 6-week grid of a month, Sunday first.
 */
module Dates {
  import opened Time

  /** Days from 1970-01-01 to `year`-`month`-`day` of the proleptic Gregorian calendar (month 1-12). */
  function DaysFromCivil(year: int, month: int, day: int): int
    requires 1 <= month <= 12
  {
    var y := if month <= 2 then year - 1 else year;
    var era := y / 400;
    var yoe := y - era * 400;
    var mp := if month > 2 then month - 3 else month + 9;
    var doy := (153 * mp + 2) / 5 + day - 1;
    var doe := yoe * 365 + yoe / 4 - yoe / 100 + doy;
    era * 146097 + doe - 719468
  }

  lemma WeekdayShift(day: int, k: int)
    ensures Weekday(day + k) == (Weekday(day) + k) % 7
  {
    var q := (day + EpochWeekday) / 7;
    assert day + EpochWeekday == 7 * q + Weekday(day);
    assert day + k + EpochWeekday == 7 * q + (Weekday(day) + k);
  }

  /** `count` consecutive days from `first`. */
  function Consecutive(first: int, count: nat): (r: seq<int>)
    ensures |r| == count && forall i :: 0 <= i < count ==> r[i] == first + i
  {
    seq(count, i => first + i)
  }

  /** `getWeekDates(base)`: the week of `base`, from its Monday; a Sunday belongs to the week before. */
  function WeekDates(base: int): seq<int>
  {
    var day := Weekday(base);
    var mon := base - day + (if day == 0 then -6 else 1);
    Consecutive(mon, 7)
  }

  /** The week grid is Monday to Sunday and holds the day it was built from. */
  lemma WeekDatesProperties(base: int)
    ensures |WeekDates(base)| == 7
    ensures Weekday(WeekDates(base)[0]) == Monday
    ensures forall i :: 0 <= i < 6 ==> WeekDates(base)[i + 1] == WeekDates(base)[i] + 1
    ensures base in WeekDates(base)
    ensures Weekday(base) == Sunday ==> WeekDates(base)[6] == base
  {
    var day := Weekday(base);
    var shift := -day + (if day == 0 then -6 else 1);
    WeekdayShift(base, shift);
    var r := WeekDates(base);
    if day == 0 {
      assert r[6] == base;
    } else {
      assert r[day - 1] == base;
    }
  }

  /** `new Date(year, month, 1)` with `month` counted from 0, as JavaScript does; months outside 0-11 roll into other years. */
  function FirstOfMonth(year: int, month: int): int
  {
    DaysFromCivil(year + month / 12, month % 12 + 1, 1)
  }

  /** `getMonthDates(year, month)`: 42 days from the Sunday on or before the 1st. */
  function MonthDates(year: int, month: int): seq<int>
  {
    var first := FirstOfMonth(year, month);
    Consecutive(first - Weekday(first), 42)
  }

  /** The month grid starts on a Sunday, within the week of the 1st, and runs 42 consecutive days. */
  lemma MonthDatesProperties(year: int, month: int)
    ensures var r := MonthDates(year, month);
            var first := FirstOfMonth(year, month);
            |r| == 42 && Weekday(r[0]) == Sunday &&
            r[0] <= first < r[0] + 7 && first in r &&
            (forall i :: 0 <= i < 41 ==> r[i + 1] == r[i] + 1) &&
            first + 31 <= r[41] + 1
  {
    var first := FirstOfMonth(year, month);
    WeekdayShift(first, -Weekday(first));
    var r := MonthDates(year, month);
    assert r[Weekday(first)] == first;
  }

  /** Day 0 is 1970-01-01, and 2026-10-13 is day 20739, a Tuesday. */
  lemma CivilExamples()
    ensures DaysFromCivil(1970, 1, 1) == 0
    ensures DaysFromCivil(2026, 10, 13) == 20739 && Weekday(20739) == 2
  {
  }

  /** October 2026 (month 9) starts on a Thursday, so its grid starts on Sunday 27 September. */
  lemma OctoberGridExample()
    ensures MonthDates(2026, 9)[0] == DaysFromCivil(2026, 9, 27)
  {
    assert FirstOfMonth(2026, 9) == DaysFromCivil(2026, 10, 1) == 20727;
    assert Weekday(20727) == 4;
    assert DaysFromCivil(2026, 9, 27) == 20723;
  }

  /** Month 12 of 2025 is January 2026. */
  lemma MonthRollsOverExample()
    ensures FirstOfMonth(2025, 12) == DaysFromCivil(2026, 1, 1)
  {
    assert 12 / 12 == 1 && 12 % 12 == 0;
  }
}
