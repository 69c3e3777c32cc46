/**
 * The slot finder of lib/calendar.js: `findAvailableSlots` scans one requested day or a
 * seven-day window, moving a cursor through each open day from 07:00 while the cursor's
 * hour is before 18, and offers at most five start instants that avoid the lunch hour,
 * the given appointments and the given blocks.
 *
 * The scan is specified by the functions DayScan, Scan and FindSlotsSpec; the method
 * FindAvailableSlots runs the source's loops and is proved to compute FindSlotsSpec.
 */
module Calendar {
  import opened Wrappers
  import opened Time

  const OpenHour: int := 7
  const CloseHour: int := 18
  const LunchStartHour: int := 11
  const LunchEndHour: int := 12
  const MaxSlots: nat := 5
  /** Minutes the cursor moves after a rejected candidate. */
  const Step: int := 30
  /** Minutes between `now` and the earliest start offered today. */
  const Buffer: int := 30
  /** Days scanned when no date is requested. */
  const WindowDays: nat := 7

  /** `starts_at` / `ends_at` of an appointment or a block, as instants. */
  datatype Interval = Interval(start: int, end: int)

  /** Milliseconds of a whole minute. */
  const MillisPerMinute: int := 60000

  /** The millisecond instant `residue` milliseconds after the minute `t`. */
  function InMillis(t: int, residue: int): int
  {
    t * MillisPerMinute + residue
  }

  /** Sunday and Monday are skipped (lib/calendar.js:40); overrides are not consulted. */
  predicate ClosedWeekday(day: int)
  {
    Weekday(day) == Sunday || Weekday(day) == Monday
  }

  function MinuteOfHour(t: int): int
  {
    MinuteOfDay(t) % 60
  }

  /** 11:00 and 12:00 on the local day of the candidate. */
  function LunchStart(slotStart: int): int
  {
    At(Day(slotStart), LunchStartHour * 60)
  }

  function LunchEnd(slotStart: int): int
  {
    At(Day(slotStart), LunchEndHour * 60)
  }

  predicate HitsLunch(start: int, dur: int)
  {
    Overlaps(start, start + dur, LunchStart(start), LunchEnd(start))
  }

  /** The whole-minute slot [start, start + dur) overlaps one of `xs`. */
  predicate HitsAny(start: int, dur: int, xs: seq<Interval>)
  {
    exists i :: 0 <= i < |xs| && Overlaps(start, start + dur, xs[i].start, xs[i].end)
  }

  /**
   * The collision test of lib/calendar.js:80 and :91 on whole minutes. A `late` cursor
   * carries a residue of a few milliseconds, so its slot lies a fraction of a minute after
   * [start, start + dur): an end equal to the interval's start then already overlaps it,
   * while a start equal to the interval's end still does not.
   */
  predicate Collides(start: int, late: bool, dur: int, iv: Interval)
  {
    if late then start < iv.end && iv.start <= start + dur
    else Overlaps(start, start + dur, iv.start, iv.end)
  }

  predicate HitsAnyAt(start: int, late: bool, dur: int, xs: seq<Interval>)
  {
    exists i :: 0 <= i < |xs| && Collides(start, late, dur, xs[i])
  }

  /**
   * A candidate is accepted when it misses lunch, every appointment and every block. Lunch
   * is built from the candidate itself (lib/calendar.js:66-67) and carries the same residue,
   * so the residue does not change that test.
   */
  predicate Accepts(start: int, late: bool, dur: int, appointments: seq<Interval>,
                    blocks: seq<Interval>)
  {
    !HitsLunch(start, dur) && !HitsAnyAt(start, late, dur, appointments) &&
    !HitsAnyAt(start, late, dur, blocks)
  }

  /**
   * Collides is `checkOverlap` on millisecond instants: a slot `residue` milliseconds past
   * its whole minutes overlaps a whole-minute interval exactly when Collides holds with
   * `late` meaning a residue above zero.
   */
  lemma CollidesInMillis(start: int, dur: int, iv: Interval, residue: int)
    requires 0 <= residue < 1000
    ensures Overlaps(InMillis(start, residue), InMillis(start + dur, residue),
                     InMillis(iv.start, 0), InMillis(iv.end, 0))
        <==> Collides(start, residue > 0, dur, iv)
  {
    if residue > 0 {
      assert InMillis(start, residue) < InMillis(iv.end, 0) <==> start < iv.end;
      assert InMillis(start + dur, residue) > InMillis(iv.start, 0) <==> start + dur >= iv.start;
    }
  }

  /** The same for lunch, whose bounds carry the slot's own residue. */
  lemma LunchInMillis(start: int, dur: int, residue: int)
    ensures Overlaps(InMillis(start, residue), InMillis(start + dur, residue),
                     InMillis(LunchStart(start), residue), InMillis(LunchEnd(start), residue))
        <==> HitsLunch(start, dur)
  {
  }

  /** A residue only adds collisions: a late candidate that is accepted is accepted on whole minutes too. */
  lemma AcceptsLateAcceptsOnTime(start: int, dur: int, appointments: seq<Interval>,
                                 blocks: seq<Interval>)
    ensures Accepts(start, true, dur, appointments, blocks) ==>
              Accepts(start, false, dur, appointments, blocks)
    ensures Accepts(start, false, dur, appointments, blocks) ==
              (!HitsLunch(start, dur) && !HitsAny(start, dur, appointments) &&
               !HitsAny(start, dur, blocks))
  {
    if HitsAnyAt(start, false, dur, appointments) {
      var i :| 0 <= i < |appointments| && Collides(start, false, dur, appointments[i]);
      assert Collides(start, true, dur, appointments[i]);
    }
    if HitsAnyAt(start, false, dur, blocks) {
      var i :| 0 <= i < |blocks| && Collides(start, false, dur, blocks[i]);
      assert Collides(start, true, dur, blocks[i]);
    }
    if HitsAny(start, dur, appointments) {
      var i :| 0 <= i < |appointments| && Overlaps(start, start + dur, appointments[i].start, appointments[i].end);
      assert Collides(start, false, dur, appointments[i]);
    }
    if HitsAny(start, dur, blocks) {
      var i :| 0 <= i < |blocks| && Overlaps(start, start + dur, blocks[i].start, blocks[i].end);
      assert Collides(start, false, dur, blocks[i]);
    }
  }

  lemma MinuteOfHourMod30(t: int)
    ensures MinuteOfHour(t) % 30 == t % 30
  {
    var q := t / MinutesPerDay;
    var h := MinuteOfDay(t) / 60;
    assert t == 1440 * q + 60 * h + MinuteOfHour(t);
    assert t == 30 * (48 * q + 2 * h) + MinuteOfHour(t);
  }

  /**
   * `now` plus the 30-minute buffer, rounded up to the next :00 or :30
   * (lib/calendar.js:47-51).
   */
  function Buffered(now: int): int
  {
    var next := now + Buffer;
    var rem := MinuteOfHour(next) % 30;
    if rem > 0 then next + (30 - rem) else next
  }

  /** The buffered instant is a :00 or :30 mark at least 30 and less than 60 minutes after `now`. */
  lemma BufferedBounds(now: int)
    ensures now + Buffer <= Buffered(now) < now + Buffer + 30
    ensures Buffered(now) % 30 == 0
  {
    MinuteOfHourMod30(now + Buffer);
  }

  /**
   * Where the cursor starts on `day` (lib/calendar.js:43-56), in whole minutes: 07:00, or
   * on `today` the `earliest` start the buffer allows, if that is later.
   */
  function FirstCursor(day: int, today: int, earliest: int): (c: int)
    ensures c >= At(day, OpenHour * 60)
    ensures day == today ==> c >= earliest
  {
    var open := At(day, OpenHour * 60);
    if day == today && open < earliest then earliest else open
  }

  /**
   * The scanned days are clones of the clock reading (`fromNow`: no date requested, or a
   * past one) or the requested date at midnight (lib/calendar.js:18-23). The day's cursor
   * carries the clock's milliseconds when its day is such a clone, since `.second(0)`
   * keeps them (line 43), or when it is moved to the buffered instant, which keeps them
   * too (lines 47-55); on `today` of a requested date that happens also when 07:00 equals
   * the buffered minute.
   */
  predicate CursorLate(day: int, today: int, earliest: int, fromNow: bool, nowMillis: int)
  {
    nowMillis > 0 && (fromNow || (day == today && At(day, OpenHour * 60) <= earliest))
  }

  /**
   * The cursor loop over one day (lib/calendar.js:59-114): the accepted starts from
   * `cursor` on, when `found` slots were already found.
   */
  function DayScan(cursor: int, late: bool, dur: int, appointments: seq<Interval>,
                   blocks: seq<Interval>, found: nat): (r: seq<int>)
    requires found <= MaxSlots
    ensures |r| <= MaxSlots - found
    decreases MaxSlots - found, At(Day(cursor), CloseHour * 60) - cursor
  {
    if HourOf(cursor) >= CloseHour || found >= MaxSlots then []
    else if Accepts(cursor, late, dur, appointments, blocks) then
      [cursor] + DayScan(cursor + dur, late, dur, appointments, blocks, found + 1)
    else
      SameDay(cursor, Step);
      DayScan(cursor + Step, late, dur, appointments, blocks, found)
  }

  /**
   * The day loop (lib/calendar.js:33-115) from its `i`-th iteration on, which looks at day
   * `startDate + i`, when `found` slots were already found.
   */
  function Scan(startDate: int, i: nat, daysToCheck: nat, today: int, earliest: int,
                fromNow: bool, nowMillis: int, dur: int, appointments: seq<Interval>,
                blocks: seq<Interval>, found: nat): (r: seq<int>)
    requires found <= MaxSlots
    ensures |r| <= MaxSlots - found
    decreases daysToCheck - i
  {
    if i >= daysToCheck || found >= MaxSlots then []
    else if ClosedWeekday(startDate + i) then
      Scan(startDate, i + 1, daysToCheck, today, earliest, fromNow, nowMillis, dur, appointments,
           blocks, found)
    else
      var d := startDate + i;
      var s := DayScan(FirstCursor(d, today, earliest), CursorLate(d, today, earliest, fromNow, nowMillis),
                       dur, appointments, blocks, found);
      s + Scan(startDate, i + 1, daysToCheck, today, earliest, fromNow, nowMillis, dur, appointments,
               blocks, found + |s|)
  }

  /** The first day scanned: the requested one, today if none or if it is past (lib/calendar.js:18-23). */
  function StartDay(requestedDate: Option<int>, now: int): (d: int)
    ensures d >= Day(now)
    ensures requestedDate.Some? && requestedDate.value >= Day(now) ==> d == requestedDate.value
  {
    match requestedDate
    case None => Day(now)
    case Some(d) => if d < Day(now) then Day(now) else d
  }

  /** The scanned days are clones of the clock reading rather than a parsed date (lib/calendar.js:18-23). */
  predicate FromNow(requestedDate: Option<int>, now: int)
  {
    requestedDate.None? || requestedDate.value < Day(now)
  }

  function DaysToCheck(requestedDate: Option<int>): nat
  {
    if requestedDate.Some? then 1 else WindowDays
  }

  /**
   * What `findAvailableSlots` returns, as start instants, for the clock reading `now` (in
   * whole minutes) with `nowMillis` milliseconds; its seconds never matter.
   */
  function FindSlotsSpec(requestedDate: Option<int>, now: int, nowMillis: int, dur: int,
                         appointments: seq<Interval>, blocks: seq<Interval>): seq<int>
  {
    Scan(StartDay(requestedDate, now), 0, DaysToCheck(requestedDate), Day(now), Buffered(now),
         FromNow(requestedDate, now), nowMillis, dur, appointments, blocks, 0)
  }


  /**
   * The conflict loops of lib/calendar.js:76-96 on millisecond instants: does
   * [start, end) overlap one of the whole-minute intervals `xs`?
   */
  method AnyOverlap(start: int, end: int, xs: seq<Interval>) returns (conflict: bool)
    ensures conflict <==>
              exists i :: 0 <= i < |xs| &&
                Overlaps(start, end, InMillis(xs[i].start, 0), InMillis(xs[i].end, 0))
  {
    conflict := false;
    for i := 0 to |xs|
      invariant !conflict
      invariant forall j :: 0 <= j < i ==>
                  !Overlaps(start, end, InMillis(xs[j].start, 0), InMillis(xs[j].end, 0))
    {
      if Overlaps(start, end, InMillis(xs[i].start, 0), InMillis(xs[i].end, 0)) {
        conflict := true;
        break;
      }
    }
  }

  /** AnyOverlap's answer for a candidate with a residue is HitsAnyAt. */
  lemma HitsAnyInMillis(start: int, dur: int, xs: seq<Interval>, residue: int)
    requires 0 <= residue < 1000
    ensures (exists i :: 0 <= i < |xs| &&
               Overlaps(InMillis(start, residue), InMillis(start + dur, residue),
                        InMillis(xs[i].start, 0), InMillis(xs[i].end, 0)))
        <==> HitsAnyAt(start, residue > 0, dur, xs)
  {
    forall i | 0 <= i < |xs|
      ensures Overlaps(InMillis(start, residue), InMillis(start + dur, residue),
                       InMillis(xs[i].start, 0), InMillis(xs[i].end, 0))
          <==> Collides(start, residue > 0, dur, xs[i])
    {
      CollidesInMillis(start, dur, xs[i], residue);
    }
  }

  /**
   * Step 1 of the cursor loop (lib/calendar.js:65-72) for the candidate at `slotStart` plus
   * `residue` milliseconds: does it overlap 11:00-12:00 of its own day?
   */
  method LunchConflict(slotStart: int, residue: int, serviceDuration: int) returns (lunch: bool)
    ensures lunch <==> HitsLunch(slotStart, serviceDuration)
  {
    var slotEnd := slotStart + serviceDuration;
    LunchInMillis(slotStart, serviceDuration, residue);
    lunch := Overlaps(InMillis(slotStart, residue), InMillis(slotEnd, residue),
                      InMillis(LunchStart(slotStart), residue), InMillis(LunchEnd(slotStart), residue));
  }

  /**
   * Steps 2 and 3 of the cursor loop (lib/calendar.js:74-96) for the candidate at `slotStart`
   * plus `residue` milliseconds: the appointments are checked first, the blocks only when
   * no appointment conflicts.
   */
  method Conflicts(slotStart: int, residue: int, serviceDuration: int, appointments: seq<Interval>,
                   blocks: seq<Interval>) returns (conflict: bool)
    requires 0 <= residue < 1000
    ensures conflict <==> HitsAnyAt(slotStart, residue > 0, serviceDuration, appointments) ||
                          HitsAnyAt(slotStart, residue > 0, serviceDuration, blocks)
  {
    var slotEnd := slotStart + serviceDuration;
    HitsAnyInMillis(slotStart, serviceDuration, appointments, residue);
    HitsAnyInMillis(slotStart, serviceDuration, blocks, residue);
    conflict := AnyOverlap(InMillis(slotStart, residue), InMillis(slotEnd, residue), appointments);
    if !conflict {
      conflict := AnyOverlap(InMillis(slotStart, residue), InMillis(slotEnd, residue), blocks);
    }
  }

  /**
   * The three tests of the cursor loop (lib/calendar.js:65-96) for the candidate at
   * `slotStart` plus `residue` milliseconds, in the source's order: lunch first (on a hit
   * the loop moves on at once), then the appointments, then the blocks.
   */
  method IsFree(slotStart: int, residue: int, serviceDuration: int, appointments: seq<Interval>,
                blocks: seq<Interval>) returns (free: bool)
    requires 0 <= residue < 1000
    ensures free == Accepts(slotStart, residue > 0, serviceDuration, appointments, blocks)
  {
    var lunch := LunchConflict(slotStart, residue, serviceDuration);
    if lunch {
      return false;
    }
    var conflict := Conflicts(slotStart, residue, serviceDuration, appointments, blocks);
    free := !conflict;
  }

  /**
   * The cursor loop of lib/calendar.js:59-114 for one day, starting at `cursor` plus
   * `residue` milliseconds with `found` slots already found; returns the starts it
   * accepts, in order, in whole minutes as `format()` prints them.
   */
  method ScanDay(cursor: int, residue: int, found: nat, serviceDuration: int,
                 appointments: seq<Interval>, blocks: seq<Interval>) returns (accepted: seq<int>)
    requires 0 <= residue < 1000 && found <= MaxSlots
    ensures accepted == DayScan(cursor, residue > 0, serviceDuration, appointments, blocks, found)
  {
    var late := residue > 0;
    accepted := [];
    var timeCursor := cursor;
    var slotsFound := found;
    while HourOf(timeCursor) < CloseHour
      invariant found <= slotsFound == found + |accepted| <= MaxSlots
      invariant accepted + DayScan(timeCursor, late, serviceDuration, appointments, blocks, slotsFound)
                == DayScan(cursor, late, serviceDuration, appointments, blocks, found)
      decreases MaxSlots - slotsFound, At(Day(timeCursor), CloseHour * 60) - timeCursor
    {
      if slotsFound >= MaxSlots {
        break;
      }
      var slotStart := timeCursor;
      var free := IsFree(slotStart, residue, serviceDuration, appointments, blocks);
      DayScanUnfold(accepted, timeCursor, late, free, serviceDuration, appointments, blocks,
                    slotsFound);
      if free {
        accepted := accepted + [slotStart];
        slotsFound := slotsFound + 1;
        timeCursor := timeCursor + serviceDuration;
      } else {
        SameDay(timeCursor, Step);
        timeCursor := timeCursor + Step;
      }
    }
    DayScanDone(timeCursor, late, serviceDuration, appointments, blocks, slotsFound);
    assert accepted + [] == accepted;
  }

  /**
   * One step of DayScan at a cursor whose hour is before 18, with fewer than five slots
   * found and `prefix` accepted before it, where `free` is the outcome of the candidate's tests.
   */
  lemma DayScanUnfold(prefix: seq<int>, cursor: int, late: bool, free: bool, dur: int,
                      appointments: seq<Interval>, blocks: seq<Interval>, found: nat)
    requires HourOf(cursor) < CloseHour && found < MaxSlots
    requires free == Accepts(cursor, late, dur, appointments, blocks)
    ensures free ==>
              (prefix + [cursor]) + DayScan(cursor + dur, late, dur, appointments, blocks, found + 1)
              == prefix + DayScan(cursor, late, dur, appointments, blocks, found)
    ensures !free ==>
              prefix + DayScan(cursor + Step, late, dur, appointments, blocks, found)
              == prefix + DayScan(cursor, late, dur, appointments, blocks, found)
  {
    if free {
      var rest := DayScan(cursor + dur, late, dur, appointments, blocks, found + 1);
      assert (prefix + [cursor]) + rest == prefix + ([cursor] + rest);
    }
  }

  /** DayScan has nothing left once the cursor's hour reaches 18 or five slots are found. */
  lemma DayScanDone(cursor: int, late: bool, dur: int, appointments: seq<Interval>,
                    blocks: seq<Interval>, found: nat)
    requires found <= MaxSlots && (HourOf(cursor) >= CloseHour || found >= MaxSlots)
    ensures DayScan(cursor, late, dur, appointments, blocks, found) == []
  {
  }

  /**
   * Sets the cursor of `currentDay` (lib/calendar.js:43-56): returns it in whole minutes
   * and its milliseconds. `currentDay` is a clone of the clock reading when `fromNow`, so
   * its milliseconds are `nowMillis`, and the requested date at midnight otherwise.
   */
  method SetCursor(currentDay: int, fromNow: bool, now: int, nowMillis: int)
    returns (timeCursor: int, residue: int)
    requires 0 <= nowMillis < 1000
    ensures timeCursor == FirstCursor(currentDay, Day(now), Buffered(now))
    ensures residue == if CursorLate(currentDay, Day(now), Buffered(now), fromNow, nowMillis)
                       then nowMillis else 0
  {
    timeCursor := At(currentDay, OpenHour * 60);
    residue := if fromNow then nowMillis else 0;
    if currentDay == Day(now) {
      var nextSlot := now + Buffer;
      var rem := MinuteOfHour(nextSlot) % 30;
      if rem > 0 {
        nextSlot := nextSlot + (30 - rem);
      }
      if InMillis(timeCursor, residue) < InMillis(nextSlot, nowMillis) {
        timeCursor, residue := nextSlot, nowMillis;
      }
    }
  }

  /**
   * One pass of the day loop's body (lib/calendar.js:36-114) for day `startDate + i`,
   * entered with the slots found so far, fewer than five: a closed weekday is skipped
   * (`continue`), otherwise the cursor is set and the day's accepted starts are pushed.
   * What is left of the scan after this day, appended, gives what was left before it.
   */
  method VisitDay(startDate: int, i: nat, daysToCheck: nat, fromNow: bool, now: int, nowMillis: int,
                  serviceDuration: int, appointments: seq<Interval>, blocks: seq<Interval>,
                  slots: seq<int>, slotsFound: nat)
    returns (newSlots: seq<int>, newFound: nat)
    requires 0 <= nowMillis < 1000
    requires i < daysToCheck && slotsFound == |slots| < MaxSlots
    ensures newFound == |newSlots| <= MaxSlots
    ensures newSlots + Scan(startDate, i + 1, daysToCheck, Day(now), Buffered(now), fromNow, nowMillis,
                            serviceDuration, appointments, blocks, newFound)
         == slots + Scan(startDate, i, daysToCheck, Day(now), Buffered(now), fromNow, nowMillis,
                         serviceDuration, appointments, blocks, slotsFound)
  {
    ScanStep(startDate, i, daysToCheck, Day(now), Buffered(now), fromNow, nowMillis, serviceDuration,
             appointments, blocks, slotsFound);
    var currentDay := startDate + i;
    if ClosedWeekday(currentDay) {
      return slots, slotsFound;
    }
    var timeCursor, residue := SetCursor(currentDay, fromNow, now, nowMillis);
    var daySlots := ScanDay(timeCursor, residue, slotsFound, serviceDuration, appointments, blocks);
    ghost var rest := Scan(startDate, i + 1, daysToCheck, Day(now), Buffered(now), fromNow, nowMillis,
                           serviceDuration, appointments, blocks, slotsFound + |daySlots|);
    assert (slots + daySlots) + rest == slots + (daySlots + rest);
    newSlots := slots + daySlots;
    newFound := slotsFound + |daySlots|;
  }

  /** One unfolding of the day loop at a day it still visits. */
  lemma ScanStep(startDate: int, i: nat, daysToCheck: nat, today: int, earliest: int, fromNow: bool,
                 nowMillis: int, dur: int, appointments: seq<Interval>, blocks: seq<Interval>,
                 found: nat)
    requires i < daysToCheck && found < MaxSlots
    ensures ClosedWeekday(startDate + i) ==>
              Scan(startDate, i, daysToCheck, today, earliest, fromNow, nowMillis, dur, appointments,
                   blocks, found)
              == Scan(startDate, i + 1, daysToCheck, today, earliest, fromNow, nowMillis, dur,
                      appointments, blocks, found)
    ensures !ClosedWeekday(startDate + i) ==>
              var d := startDate + i;
              var s := DayScan(FirstCursor(d, today, earliest),
                               CursorLate(d, today, earliest, fromNow, nowMillis), dur, appointments,
                               blocks, found);
              Scan(startDate, i, daysToCheck, today, earliest, fromNow, nowMillis, dur, appointments,
                   blocks, found)
              == s + Scan(startDate, i + 1, daysToCheck, today, earliest, fromNow, nowMillis, dur,
                          appointments, blocks, found + |s|)
  {
  }

  /** The scan has nothing left once the days run out or five slots are found. */
  lemma ScanDone(startDate: int, i: nat, daysToCheck: nat, today: int, earliest: int, fromNow: bool,
                 nowMillis: int, dur: int, appointments: seq<Interval>, blocks: seq<Interval>,
                 found: nat)
    requires found <= MaxSlots && (i >= daysToCheck || found >= MaxSlots)
    ensures Scan(startDate, i, daysToCheck, today, earliest, fromNow, nowMillis, dur, appointments,
                 blocks, found) == []
  {
  }

  /**
   * `findAvailableSlots`: `now` and `nowMillis` are the caller's clock reading, in whole
   * minutes and its milliseconds; `requestedDate` is a day index or None for the seven-day
   * window. Returns the start instants of the offered slots.
   */
  method FindAvailableSlots(requestedDate: Option<int>, serviceDuration: int,
                            appointments: seq<Interval>, blocks: seq<Interval>, now: int,
                            nowMillis: int)
    returns (slots: seq<int>)
    requires 0 <= nowMillis < 1000
    ensures slots == FindSlotsSpec(requestedDate, now, nowMillis, serviceDuration, appointments, blocks)
  {
    var startDate := StartDay(requestedDate, now);
    var fromNow := requestedDate.None? || requestedDate.value < Day(now);
    var daysToCheck := DaysToCheck(requestedDate);
    ghost var target := FindSlotsSpec(requestedDate, now, nowMillis, serviceDuration, appointments,
                                      blocks);
    slots := [];
    var slotsFound: nat := 0;
    var i := 0;
    while i < daysToCheck
      invariant 0 <= i <= daysToCheck
      invariant slotsFound == |slots| <= MaxSlots
      invariant slots + Scan(startDate, i, daysToCheck, Day(now), Buffered(now), fromNow, nowMillis,
                             serviceDuration, appointments, blocks, slotsFound) == target
    {
      if slotsFound >= MaxSlots {
        break;
      }
      slots, slotsFound := VisitDay(startDate, i, daysToCheck, fromNow, now, nowMillis,
                                    serviceDuration, appointments, blocks, slots, slotsFound);
      i := i + 1;
    }
    ScanDone(startDate, i, daysToCheck, Day(now), Buffered(now), fromNow, nowMillis, serviceDuration,
             appointments, blocks, slotsFound);
    assert slots + [] == slots;
  }

  /** Minutes of a service when the caller gives no duration (lib/calendar.js:13). */
  const DefaultDuration: int := 60

  /**
   * `findAvailableSlots` called with some of its named arguments missing: a missing
   * duration is 60 minutes, missing appointments or blocks are none (lib/calendar.js:11-16).
   */
  method FindAvailableSlotsWithDefaults(requestedDate: Option<int>, serviceDuration: Option<int>,
                                        appointments: Option<seq<Interval>>,
                                        blocks: Option<seq<Interval>>, now: int, nowMillis: int)
    returns (slots: seq<int>)
    requires 0 <= nowMillis < 1000
    ensures slots == FindSlotsSpec(requestedDate, now, nowMillis,
                                   if serviceDuration.Some? then serviceDuration.value else DefaultDuration,
                                   if appointments.Some? then appointments.value else [],
                                   if blocks.Some? then blocks.value else [])
  {
    var dur := if serviceDuration.Some? then serviceDuration.value else DefaultDuration;
    var appts := if appointments.Some? then appointments.value else [];
    var blks := if blocks.Some? then blocks.value else [];
    slots := FindAvailableSlots(requestedDate, dur, appts, blks, now, nowMillis);
  }

  // ---------------------------------------------------------------------------------------
  // Properties of the specification
  // ---------------------------------------------------------------------------------------

  /** Starts at least `dur` apart, pairwise: with `dur > 0` they increase and never overlap. */
  predicate Gapped(r: seq<int>, dur: int)
  {
    forall j, k :: 0 <= j < k < |r| ==> r[j] + dur <= r[k]
  }

  lemma GappedConcat(a: seq<int>, b: seq<int>, dur: int)
    requires Gapped(a, dur) && Gapped(b, dur)
    requires forall x, y :: x in a && y in b ==> x + dur <= y
    ensures Gapped(a + b, dur)
  {
    forall j, k | 0 <= j < k < |a + b|
      ensures (a + b)[j] + dur <= (a + b)[k]
    {
      if k < |a| {
        assert (a + b)[j] == a[j] && (a + b)[k] == a[k];
      } else if j < |a| {
        assert (a + b)[j] == a[j] && (a + b)[k] == b[k - |a|];
        assert a[j] in a && b[k - |a|] in b;
      } else {
        assert (a + b)[j] == b[j - |a|] && (a + b)[k] == b[k - |a|];
      }
    }
  }

  /** Gapped starts are strictly increasing and their [start, start + dur) never overlap. */
  lemma GappedDisjoint(r: seq<int>, dur: int)
    requires dur > 0 && Gapped(r, dur)
    ensures forall j, k :: 0 <= j < k < |r| ==> r[j] < r[k]
    ensures forall j, k :: 0 <= j < |r| && 0 <= k < |r| && j != k ==>
              !Overlaps(r[j], r[j] + dur, r[k], r[k] + dur)
  {
  }

  /** Every start one day's scan accepts has an hour before 18 and is accepted with the day's residue. */
  lemma {:induction false} DayScanOffered(cursor: int, late: bool, dur: int,
                                          appointments: seq<Interval>, blocks: seq<Interval>,
                                          found: nat)
    requires found <= MaxSlots
    ensures forall x :: x in DayScan(cursor, late, dur, appointments, blocks, found) ==>
              HourOf(x) < CloseHour && Accepts(x, late, dur, appointments, blocks)
    decreases MaxSlots - found, At(Day(cursor), CloseHour * 60) - cursor
  {
    if HourOf(cursor) >= CloseHour || found >= MaxSlots {
    } else if Accepts(cursor, late, dur, appointments, blocks) {
      DayScanOffered(cursor + dur, late, dur, appointments, blocks, found + 1);
    } else {
      SameDay(cursor, Step);
      DayScanOffered(cursor + Step, late, dur, appointments, blocks, found);
    }
  }

  /**
   * With a duration of at most six hours, one day's accepted starts stay on the cursor's
   * day, come no earlier than the cursor and are at least `dur` apart.
   */
  lemma {:induction false} DayScanOrdered(cursor: int, late: bool, dur: int,
                                          appointments: seq<Interval>, blocks: seq<Interval>,
                                          found: nat)
    requires found <= MaxSlots
    requires 0 < dur <= 360
    ensures forall x :: x in DayScan(cursor, late, dur, appointments, blocks, found) ==>
              cursor <= x && Day(x) == Day(cursor)
    ensures Gapped(DayScan(cursor, late, dur, appointments, blocks, found), dur)
    decreases MaxSlots - found, At(Day(cursor), CloseHour * 60) - cursor
  {
    if HourOf(cursor) >= CloseHour || found >= MaxSlots {
    } else if Accepts(cursor, late, dur, appointments, blocks) {
      SameDay(cursor, dur);
      DayScanOrdered(cursor + dur, late, dur, appointments, blocks, found + 1);
      GappedConcat([cursor], DayScan(cursor + dur, late, dur, appointments, blocks, found + 1), dur);
    } else {
      SameDay(cursor, Step);
      DayScanOrdered(cursor + Step, late, dur, appointments, blocks, found);
    }
  }

  /**
   * Every start of the day loop has an hour before 18 and misses lunch, appointments and
   * blocks; when every scanned day is a clone of a clock reading with milliseconds, it also
   * passes the stricter test of a late cursor.
   */
  lemma {:induction false} ScanOffered(startDate: int, i: nat, daysToCheck: nat, today: int,
                                       earliest: int, fromNow: bool, nowMillis: int, dur: int,
                                       appointments: seq<Interval>, blocks: seq<Interval>,
                                       found: nat)
    requires found <= MaxSlots
    ensures forall x :: x in Scan(startDate, i, daysToCheck, today, earliest, fromNow, nowMillis,
                                  dur, appointments, blocks, found) ==>
              HourOf(x) < CloseHour && Accepts(x, false, dur, appointments, blocks) &&
              (fromNow && nowMillis > 0 ==> Accepts(x, true, dur, appointments, blocks))
    decreases daysToCheck - i
  {
    if i >= daysToCheck || found >= MaxSlots {
    } else if ClosedWeekday(startDate + i) {
      ScanOffered(startDate, i + 1, daysToCheck, today, earliest, fromNow, nowMillis, dur,
                  appointments, blocks, found);
    } else {
      var d := startDate + i;
      var c := FirstCursor(d, today, earliest);
      var late := CursorLate(d, today, earliest, fromNow, nowMillis);
      var s := DayScan(c, late, dur, appointments, blocks, found);
      DayScanOffered(c, late, dur, appointments, blocks, found);
      forall x | x in s
        ensures Accepts(x, false, dur, appointments, blocks)
      {
        AcceptsLateAcceptsOnTime(x, dur, appointments, blocks);
      }
      ScanOffered(startDate, i + 1, daysToCheck, today, earliest, fromNow, nowMillis, dur,
                  appointments, blocks, found + |s|);
    }
  }

  /**
   * The starts of one open day `d` of the day loop, when the duration is at most six hours
   * and the buffered instant is still on `today`: on day `d` at or after 07:00, ending
   * before its midnight, on `today` at or after `earliest`, and at least `dur` apart.
   */
  lemma DayScanBounds(d: int, today: int, earliest: int, late: bool, dur: int,
                      appointments: seq<Interval>, blocks: seq<Interval>, found: nat)
    requires found <= MaxSlots
    requires 0 < dur <= 360
    requires earliest < At(today, 0) + MinutesPerDay
    ensures forall x :: x in DayScan(FirstCursor(d, today, earliest), late, dur, appointments, blocks, found) ==>
              Day(x) == d && MinuteOfDay(x) >= OpenHour * 60 && x + dur < At(d, 0) + MinutesPerDay &&
              (d == today ==> x >= earliest)
    ensures Gapped(DayScan(FirstCursor(d, today, earliest), late, dur, appointments, blocks, found), dur)
  {
    var c := FirstCursor(d, today, earliest);
    assert Day(c) == d by {
      if c != At(d, OpenHour * 60) {
        Decompose(earliest);
      }
    }
    var s := DayScan(c, late, dur, appointments, blocks, found);
    DayScanOffered(c, late, dur, appointments, blocks, found);
    DayScanOrdered(c, late, dur, appointments, blocks, found);
    forall x | x in s
      ensures MinuteOfDay(x) >= OpenHour * 60
      ensures x + dur < At(d, 0) + MinutesPerDay
    {
      Decompose(x);
    }
  }

  /**
   * Where the day loop's starts fall, when the duration is at most six hours and the
   * buffered instant is still on `today`: on an open weekday of the scanned window, at or
   * after 07:00, on `today` at or after `earliest`, and at least `dur` apart.
   */
  lemma {:induction false} ScanPlaced(startDate: int, i: nat, daysToCheck: nat, today: int,
                                      earliest: int, fromNow: bool, nowMillis: int, dur: int,
                                      appointments: seq<Interval>, blocks: seq<Interval>,
                                      found: nat)
    requires found <= MaxSlots
    requires 0 < dur <= 360
    requires earliest < At(today, 0) + MinutesPerDay
    ensures forall x :: x in Scan(startDate, i, daysToCheck, today, earliest, fromNow, nowMillis,
                                  dur, appointments, blocks, found) ==>
              startDate + i <= Day(x) < startDate + daysToCheck && !ClosedWeekday(Day(x)) &&
              MinuteOfDay(x) >= OpenHour * 60 && (Day(x) == today ==> x >= earliest)
    ensures Gapped(Scan(startDate, i, daysToCheck, today, earliest, fromNow, nowMillis, dur,
                        appointments, blocks, found), dur)
    decreases daysToCheck - i
  {
    if i >= daysToCheck || found >= MaxSlots {
    } else if ClosedWeekday(startDate + i) {
      ScanPlaced(startDate, i + 1, daysToCheck, today, earliest, fromNow, nowMillis, dur,
                 appointments, blocks, found);
    } else {
      var d := startDate + i;
      var late := CursorLate(d, today, earliest, fromNow, nowMillis);
      var s := DayScan(FirstCursor(d, today, earliest), late, dur, appointments, blocks, found);
      var rest := Scan(startDate, i + 1, daysToCheck, today, earliest, fromNow, nowMillis, dur,
                       appointments, blocks, found + |s|);
      DayScanBounds(d, today, earliest, late, dur, appointments, blocks, found);
      ScanPlaced(startDate, i + 1, daysToCheck, today, earliest, fromNow, nowMillis, dur,
                 appointments, blocks, found + |s|);
      forall y | y in rest
        ensures At(d, 0) + MinutesPerDay <= y
      {
        Decompose(y);
      }
      GappedConcat(s, rest, dur);
    }
  }

  /**
   * Under the same bounds every start of the day loop is accepted with the residue of its
   * own day's cursor.
   */
  lemma {:induction false} ScanAcceptedLate(startDate: int, i: nat, daysToCheck: nat, today: int,
                                            earliest: int, fromNow: bool, nowMillis: int, dur: int,
                                            appointments: seq<Interval>, blocks: seq<Interval>,
                                            found: nat)
    requires found <= MaxSlots
    requires 0 < dur <= 360
    requires earliest < At(today, 0) + MinutesPerDay
    ensures forall x :: x in Scan(startDate, i, daysToCheck, today, earliest, fromNow, nowMillis,
                                  dur, appointments, blocks, found) ==>
              Accepts(x, CursorLate(Day(x), today, earliest, fromNow, nowMillis), dur,
                      appointments, blocks)
    decreases daysToCheck - i
  {
    if i >= daysToCheck || found >= MaxSlots {
    } else if ClosedWeekday(startDate + i) {
      ScanAcceptedLate(startDate, i + 1, daysToCheck, today, earliest, fromNow, nowMillis, dur,
                       appointments, blocks, found);
    } else {
      var d := startDate + i;
      var c := FirstCursor(d, today, earliest);
      var late := CursorLate(d, today, earliest, fromNow, nowMillis);
      var s := DayScan(c, late, dur, appointments, blocks, found);
      DayScanBounds(d, today, earliest, late, dur, appointments, blocks, found);
      DayScanOffered(c, late, dur, appointments, blocks, found);
      ScanAcceptedLate(startDate, i + 1, daysToCheck, today, earliest, fromNow, nowMillis, dur,
                       appointments, blocks, found + |s|);
    }
  }

  /**
   * `findAvailableSlots` offers at most five slots, each before 18:00's hour and free of
   * lunch, appointments and blocks. When the scanned days are clones of a clock reading
   * with milliseconds (no date requested, or a past one), no slot ends exactly where an
   * appointment or a block starts either: it passes the late test.
   */
  lemma FindSlotsOffered(requestedDate: Option<int>, now: int, nowMillis: int, dur: int,
                         appointments: seq<Interval>, blocks: seq<Interval>)
    ensures |FindSlotsSpec(requestedDate, now, nowMillis, dur, appointments, blocks)| <= MaxSlots
    ensures forall x :: x in FindSlotsSpec(requestedDate, now, nowMillis, dur, appointments, blocks) ==>
              HourOf(x) < CloseHour && !HitsLunch(x, dur) &&
              !HitsAny(x, dur, appointments) && !HitsAny(x, dur, blocks)
    ensures FromNow(requestedDate, now) && nowMillis > 0 ==>
              forall x :: x in FindSlotsSpec(requestedDate, now, nowMillis, dur, appointments, blocks) ==>
                !HitsAnyAt(x, true, dur, appointments) && !HitsAnyAt(x, true, dur, blocks)
  {
    var r := FindSlotsSpec(requestedDate, now, nowMillis, dur, appointments, blocks);
    ScanOffered(StartDay(requestedDate, now), 0, DaysToCheck(requestedDate), Day(now),
                Buffered(now), FromNow(requestedDate, now), nowMillis, dur, appointments, blocks, 0);
    forall x | x in r
      ensures !HitsAny(x, dur, appointments) && !HitsAny(x, dur, blocks)
    {
      AcceptsLateAcceptsOnTime(x, dur, appointments, blocks);
    }
  }

  /**
   * When the duration is at most six hours and `now` is no later than 23:00 (so that
   * now + 30 minutes, rounded up, is still today), every offered slot lies on an open
   * weekday of the scanned window (the requested day itself, clamped to today, when one is
   * given), starts at or after 07:00 and at least 30 minutes after `now`, passes the
   * collision test with the residue of its own day's cursor, and the slots are strictly
   * increasing with no two of them overlapping.
   */
  lemma FindSlotsPlaced(requestedDate: Option<int>, now: int, nowMillis: int, dur: int,
                        appointments: seq<Interval>, blocks: seq<Interval>)
    requires 0 < dur <= 360
    requires MinuteOfDay(now) <= 23 * 60
    ensures forall x :: x in FindSlotsSpec(requestedDate, now, nowMillis, dur, appointments, blocks) ==>
              StartDay(requestedDate, now) <= Day(x) < StartDay(requestedDate, now) + DaysToCheck(requestedDate) &&
              !ClosedWeekday(Day(x)) && MinuteOfDay(x) >= OpenHour * 60 && x >= now + Buffer &&
              (Day(x) == Day(now) ==> x >= Buffered(now)) &&
              Accepts(x, CursorLate(Day(x), Day(now), Buffered(now), FromNow(requestedDate, now), nowMillis),
                      dur, appointments, blocks)
    ensures requestedDate.Some? ==>
              forall x :: x in FindSlotsSpec(requestedDate, now, nowMillis, dur, appointments, blocks) ==>
                Day(x) == StartDay(requestedDate, now)
    ensures Gapped(FindSlotsSpec(requestedDate, now, nowMillis, dur, appointments, blocks), dur)
    ensures var r := FindSlotsSpec(requestedDate, now, nowMillis, dur, appointments, blocks);
            forall j, k :: 0 <= j < k < |r| ==>
              (r[j] < r[k] && !Overlaps(r[j], r[j] + dur, r[k], r[k] + dur))
  {
    var r := FindSlotsSpec(requestedDate, now, nowMillis, dur, appointments, blocks);
    Decompose(now);
    BufferedBounds(now);
    ScanPlaced(StartDay(requestedDate, now), 0, DaysToCheck(requestedDate), Day(now),
               Buffered(now), FromNow(requestedDate, now), nowMillis, dur, appointments, blocks, 0);
    ScanAcceptedLate(StartDay(requestedDate, now), 0, DaysToCheck(requestedDate), Day(now),
                     Buffered(now), FromNow(requestedDate, now), nowMillis, dur, appointments,
                     blocks, 0);
    forall x | x in r
      ensures x >= now + Buffer
    {
      Decompose(x);
    }
    GappedDisjoint(r, dur);
  }

  /** A requested Sunday or Monday (today or later) gets no slots: no other day is searched. */
  lemma ClosedRequestedDay(d: int, now: int, nowMillis: int, dur: int, appointments: seq<Interval>,
                           blocks: seq<Interval>)
    requires d >= Day(now) && ClosedWeekday(d)
    ensures FindSlotsSpec(Some(d), now, nowMillis, dur, appointments, blocks) == []
  {
  }

  /**
   * A requested day in the past is searched as today, but from a clone of the clock
   * reading: the result is that of the window scan cut to its first day.
   */
  lemma PastRequestedDay(d: int, now: int, nowMillis: int, dur: int, appointments: seq<Interval>,
                         blocks: seq<Interval>)
    requires d < Day(now)
    ensures FindSlotsSpec(Some(d), now, nowMillis, dur, appointments, blocks)
         == Scan(Day(now), 0, 1, Day(now), Buffered(now), true, nowMillis, dur, appointments, blocks, 0)
    ensures nowMillis == 0 ==>
              FindSlotsSpec(Some(d), now, nowMillis, dur, appointments, blocks)
              == FindSlotsSpec(Some(Day(now)), now, nowMillis, dur, appointments, blocks)
  {
  }

  /** Day 20739 is 2026-10-13, a Tuesday. */
  const ExampleTuesday: int := 20739

  /**
   * A Tuesday with no bookings and a 60-minute service, asked for the day before: exactly
   * 07:00, 08:00, 09:00, 10:00 and 12:00 (11:00 would run into lunch).
   */
  lemma EmptyTuesdayExample(nowMillis: int)
    ensures FindSlotsSpec(Some(ExampleTuesday), At(ExampleTuesday - 1, 10 * 60), nowMillis, 60, [], [])
         == [At(ExampleTuesday, 7 * 60), At(ExampleTuesday, 8 * 60), At(ExampleTuesday, 9 * 60),
             At(ExampleTuesday, 10 * 60), At(ExampleTuesday, 12 * 60)]
  {
    var d := ExampleTuesday;
    assert Weekday(d) == 2;
    assert !CursorLate(d, d - 1, Buffered(At(d - 1, 600)), false, nowMillis);
    assert DayScan(At(d, 720), false, 60, [], [], 4) == [At(d, 720)] by {
      assert At(d, 720) + 60 == At(d, 780);
    }
    assert DayScan(At(d, 690), false, 60, [], [], 4) == [At(d, 720)] by {
      assert At(d, 690) + Step == At(d, 720);
    }
    assert DayScan(At(d, 660), false, 60, [], [], 4) == [At(d, 720)] by {
      assert At(d, 660) + Step == At(d, 690);
    }
    assert DayScan(At(d, 600), false, 60, [], [], 3) == [At(d, 600), At(d, 720)] by {
      assert At(d, 600) + 60 == At(d, 660);
    }
    assert DayScan(At(d, 540), false, 60, [], [], 2) == [At(d, 540), At(d, 600), At(d, 720)] by {
      assert At(d, 540) + 60 == At(d, 600);
    }
    assert DayScan(At(d, 480), false, 60, [], [], 1)
        == [At(d, 480), At(d, 540), At(d, 600), At(d, 720)] by {
      assert At(d, 480) + 60 == At(d, 540);
    }
    assert DayScan(At(d, 420), false, 60, [], [], 0)
        == [At(d, 420), At(d, 480), At(d, 540), At(d, 600), At(d, 720)] by {
      assert At(d, 420) + 60 == At(d, 480);
    }
  }

  /**
   * The same Tuesday with one appointment 09:00-10:00 and a 30-minute service: the
   * requested date is parsed at midnight, so its cursor has no residue whatever the clock's
   * milliseconds; the starts up to 08:30 touch the appointment without overlapping, 09:00
   * and 09:30 are rejected, 10:00 is next.
   */
  lemma BookedTuesdayExample(nowMillis: int)
    ensures FindSlotsSpec(Some(ExampleTuesday), At(ExampleTuesday - 1, 10 * 60), nowMillis, 30,
                          [Interval(At(ExampleTuesday, 9 * 60), At(ExampleTuesday, 10 * 60))], [])
         == [At(ExampleTuesday, 7 * 60), At(ExampleTuesday, 7 * 60 + 30), At(ExampleTuesday, 8 * 60),
             At(ExampleTuesday, 8 * 60 + 30), At(ExampleTuesday, 10 * 60)]
  {
    var d := ExampleTuesday;
    var booked := [Interval(At(d, 540), At(d, 600))];
    assert Weekday(d) == 2;
    assert !CursorLate(d, d - 1, Buffered(At(d - 1, 600)), false, nowMillis);
    assert DayScan(At(d, 600), false, 30, booked, [], 4) == [At(d, 600)] by {
      assert At(d, 600) + 30 == At(d, 630);
    }
    assert DayScan(At(d, 570), false, 30, booked, [], 4) == [At(d, 600)] by {
      assert Collides(At(d, 570), false, 30, booked[0]);
      assert At(d, 570) + Step == At(d, 600);
    }
    assert DayScan(At(d, 540), false, 30, booked, [], 4) == [At(d, 600)] by {
      assert Collides(At(d, 540), false, 30, booked[0]);
      assert At(d, 540) + Step == At(d, 570);
    }
    assert DayScan(At(d, 510), false, 30, booked, [], 3) == [At(d, 510), At(d, 600)] by {
      assert At(d, 510) + 30 == At(d, 540);
    }
    assert DayScan(At(d, 480), false, 30, booked, [], 2) == [At(d, 480), At(d, 510), At(d, 600)] by {
      assert At(d, 480) + 30 == At(d, 510);
    }
    assert DayScan(At(d, 450), false, 30, booked, [], 1)
        == [At(d, 450), At(d, 480), At(d, 510), At(d, 600)] by {
      assert At(d, 450) + 30 == At(d, 480);
    }
    assert DayScan(At(d, 420), false, 30, booked, [], 0)
        == [At(d, 420), At(d, 450), At(d, 480), At(d, 510), At(d, 600)] by {
      assert At(d, 420) + 30 == At(d, 450);
    }
  }

  /**
   * The same appointment asked for the week on the Monday at 10:00 plus some milliseconds:
   * Tuesday's cursor is a clone of the clock reading and keeps its milliseconds, so 08:30,
   * whose end touches the appointment's start, now collides; 10:00 and 10:30 follow.
   */
  lemma WindowResidueExample(nowMillis: int)
    requires 0 < nowMillis < 1000
    ensures FindSlotsSpec(None, At(ExampleTuesday - 1, 10 * 60), nowMillis, 30,
                          [Interval(At(ExampleTuesday, 9 * 60), At(ExampleTuesday, 10 * 60))], [])
         == [At(ExampleTuesday, 7 * 60), At(ExampleTuesday, 7 * 60 + 30), At(ExampleTuesday, 8 * 60),
             At(ExampleTuesday, 10 * 60), At(ExampleTuesday, 10 * 60 + 30)]
  {
    var d := ExampleTuesday;
    var booked := [Interval(At(d, 540), At(d, 600))];
    assert Weekday(d - 1) == 1 && Weekday(d) == 2;
    assert CursorLate(d, d - 1, Buffered(At(d - 1, 600)), true, nowMillis);
    assert DayScan(At(d, 630), true, 30, booked, [], 4) == [At(d, 630)] by {
      assert At(d, 630) + 30 == At(d, 660);
    }
    assert DayScan(At(d, 600), true, 30, booked, [], 3) == [At(d, 600), At(d, 630)] by {
      assert At(d, 600) + 30 == At(d, 630);
    }
    assert DayScan(At(d, 570), true, 30, booked, [], 3) == [At(d, 600), At(d, 630)] by {
      assert Collides(At(d, 570), true, 30, booked[0]);
      assert At(d, 570) + Step == At(d, 600);
    }
    assert DayScan(At(d, 540), true, 30, booked, [], 3) == [At(d, 600), At(d, 630)] by {
      assert Collides(At(d, 540), true, 30, booked[0]);
      assert At(d, 540) + Step == At(d, 570);
    }
    assert DayScan(At(d, 510), true, 30, booked, [], 3) == [At(d, 600), At(d, 630)] by {
      assert Collides(At(d, 510), true, 30, booked[0]);
      assert At(d, 510) + Step == At(d, 540);
    }
    assert DayScan(At(d, 480), true, 30, booked, [], 2) == [At(d, 480), At(d, 600), At(d, 630)] by {
      assert At(d, 480) + 30 == At(d, 510);
    }
    assert DayScan(At(d, 450), true, 30, booked, [], 1)
        == [At(d, 450), At(d, 480), At(d, 600), At(d, 630)] by {
      assert At(d, 450) + 30 == At(d, 480);
    }
    assert DayScan(At(d, 420), true, 30, booked, [], 0)
        == [At(d, 420), At(d, 450), At(d, 480), At(d, 600), At(d, 630)] by {
      assert At(d, 420) + 30 == At(d, 450);
    }
  }

  /**
   * Without the 23:00 bound the buffer rolls past midnight: asked at exactly 23:10 on a
   * Tuesday for the week, the finder offers Wednesday 00:00 to 04:00, before the 07:00 opening.
   */
  lemma LateEveningExample()
    ensures FindSlotsSpec(None, At(ExampleTuesday, 23 * 60 + 10), 0, 60, [], [])
         == [At(ExampleTuesday + 1, 0), At(ExampleTuesday + 1, 60), At(ExampleTuesday + 1, 120),
             At(ExampleTuesday + 1, 180), At(ExampleTuesday + 1, 240)]
  {
    var d := ExampleTuesday;
    var now := At(d, 23 * 60 + 10);
    assert Weekday(d) == 2;
    assert Buffered(now) == At(d + 1, 0) by {
      assert now + Buffer == At(d, 1420);
      assert MinuteOfHour(now + Buffer) == 40;
    }
    assert FirstCursor(d, Day(now), Buffered(now)) == At(d + 1, 0);
    var e := d + 1;
    assert DayScan(At(e, 240), false, 60, [], [], 4) == [At(e, 240)] by {
      assert At(e, 240) + 60 == At(e, 300);
    }
    assert DayScan(At(e, 180), false, 60, [], [], 3) == [At(e, 180), At(e, 240)] by {
      assert At(e, 180) + 60 == At(e, 240);
    }
    assert DayScan(At(e, 120), false, 60, [], [], 2) == [At(e, 120), At(e, 180), At(e, 240)] by {
      assert At(e, 120) + 60 == At(e, 180);
    }
    assert DayScan(At(e, 60), false, 60, [], [], 1) == [At(e, 60), At(e, 120), At(e, 180), At(e, 240)] by {
      assert At(e, 60) + 60 == At(e, 120);
    }
    assert DayScan(At(e, 0), false, 60, [], [], 0)
        == [At(e, 0), At(e, 60), At(e, 120), At(e, 180), At(e, 240)] by {
      assert At(e, 0) + 60 == At(e, 60);
    }
  }
}
