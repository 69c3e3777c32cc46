/**
 * How the slot finder (lib/calendar.js) and the admin POST check
 * (app/api/admin/route.js:53-74) fit together: a slot offered against the CONFIRMED
 * bookings of the store is one that POST accepts.
 */
module Booking {
  import opened Wrappers
  import opened Time
  import Calendar
  import AdminRoute

  /** The `[starts_at, ends_at)` intervals of the CONFIRMED rows, in store order. */
  function ConfirmedIntervals(appts: seq<AdminRoute.Appointment>): (r: seq<Calendar.Interval>)
    ensures |r| <= |appts|
  {
    if appts == [] then []
    else
      var rest := ConfirmedIntervals(appts[1..]);
      if appts[0].status == AdminRoute.Confirmed
      then [Calendar.Interval(appts[0].startsAt, appts[0].endsAt)] + rest
      else rest
  }

  /** Every CONFIRMED row's interval is among the intervals, and nothing else is. */
  lemma {:induction false} ConfirmedIntervalsMembers(appts: seq<AdminRoute.Appointment>, iv: Calendar.Interval)
    ensures iv in ConfirmedIntervals(appts) <==>
              exists j :: 0 <= j < |appts| && appts[j].status == AdminRoute.Confirmed &&
                          iv == Calendar.Interval(appts[j].startsAt, appts[j].endsAt)
  {
    if appts != [] {
      ConfirmedIntervalsMembers(appts[1..], iv);
      if exists j :: 0 <= j < |appts| && appts[j].status == AdminRoute.Confirmed &&
                     iv == Calendar.Interval(appts[j].startsAt, appts[j].endsAt) {
        var j :| 0 <= j < |appts| && appts[j].status == AdminRoute.Confirmed &&
                 iv == Calendar.Interval(appts[j].startsAt, appts[j].endsAt);
        if j > 0 {
          assert appts[1..][j - 1] == appts[j];
        }
      }
      if iv in ConfirmedIntervals(appts[1..]) {
        var j :| 0 <= j < |appts[1..]| && appts[1..][j].status == AdminRoute.Confirmed &&
                 iv == Calendar.Interval(appts[1..][j].startsAt, appts[1..][j].endsAt);
        assert appts[j + 1] == appts[1..][j];
      }
    }
  }

  /** A CONFIRMED row that collides with `[x, x + dur)` is an interval the finder checks against. */
  lemma CollisionIsHit(appts: seq<AdminRoute.Appointment>, j: nat, x: int, dur: int)
    requires j < |appts|
    ensures AdminRoute.Collides(appts[j], x, x + dur) ==> Calendar.HitsAny(x, dur, ConfirmedIntervals(appts))
  {
    var iv := Calendar.Interval(appts[j].startsAt, appts[j].endsAt);
    ConfirmedIntervalsMembers(appts, iv);
    if appts[j].status == AdminRoute.Confirmed {
      var ivs := ConfirmedIntervals(appts);
      var i :| 0 <= i < |ivs| && ivs[i] == iv;
    }
  }

  /**
   * A slot that `findAvailableSlots` offers for `dur` minutes, given the store's CONFIRMED
   * bookings as its appointments, passes the POST check for `[x, x + dur)`: no CONFIRMED
   * row overlaps it, whatever its day.
   */
  lemma OfferedSlotIsBookable(requestedDate: Option<int>, now: int, nowMillis: int, dur: int,
                              appts: seq<AdminRoute.Appointment>, blocks: seq<Calendar.Interval>, x: int)
    requires x in Calendar.FindSlotsSpec(requestedDate, now, nowMillis, dur, ConfirmedIntervals(appts), blocks)
    ensures AdminRoute.FirstCollider(appts, x, x + dur).None?
  {
    Calendar.FindSlotsOffered(requestedDate, now, nowMillis, dur, ConfirmedIntervals(appts), blocks);
    forall j | 0 <= j < |appts|
      ensures !AdminRoute.Collides(appts[j], x, x + dur)
    {
      CollisionIsHit(appts, j, x, dur);
    }
  }

  /**
   * The converse fails: the finder keeps 11:00-12:00 free, while POST takes a booking over
   * lunch on an empty store.
   */
  lemma LunchIsBookableButNotOffered(nowMillis: int)
    ensures var lunch := At(Calendar.ExampleTuesday, 11 * 60);
            AdminRoute.FirstCollider([], lunch, lunch + 60).None? &&
            lunch !in Calendar.FindSlotsSpec(Some(Calendar.ExampleTuesday), At(Calendar.ExampleTuesday - 1, 10 * 60), nowMillis, 60, [], [])
  {
    Calendar.EmptyTuesdayExample(nowMillis);
  }
}
