/**
 * The day view's slot marks (app/page.js:436-471): the "HH:MM" labels of the 30-minute
 * steps covered by each CONFIRMED appointment (its start plus the duration of its
 * services) and by each block (from its start to its end, both read as local times).
 */
module DayView {
  import opened Wrappers
  import opened Time
  import opened Labels
  import Services
  import ServiceList
  import AdminRoute
  import Calendar

  const SlotStep: nat := 30

  /** How many steps `for (t = s; t < s + d; t += 30)` takes: the ceiling of d / 30, none for d <= 0. */
  function Steps(d: int): nat
  {
    if d <= 0 then 0 else (d + SlotStep - 1) / SlotStep
  }

  lemma StepsBound(d: int, k: nat)
    ensures SlotStep * k < d <==> k < Steps(d)
  {
  }

  /** Distinct minutes below `bound` get distinct labels. */
  ghost predicate InjectiveBelow(name: nat -> string, bound: nat)
  {
    forall a: nat, b: nat :: a < bound && b < bound && name(a) == name(b) ==> a == b
  }

  lemma ClockInjectiveBelow()
    ensures InjectiveBelow(Clock, 100 * 60)
  {
    forall a: nat, b: nat | a < 100 * 60 && b < 100 * 60 && Clock(a) == Clock(b)
      ensures a == b
    {
      ClockInjective(a, b);
    }
  }

  /** The labels of the first `n` steps from start minute `s`, `name` naming each minute. */
  function StepImage(name: nat -> string, s: nat, n: nat): set<string>
  {
    if n == 0 then {} else StepImage(name, s, n - 1) + {name(s + SlotStep * (n - 1))}
  }

  /** The "HH:MM" labels of the first `n` steps from start minute `s`. */
  function StepLabels(s: nat, n: nat): set<string>
  {
    StepImage(Clock, s, n)
  }

  /** The labels the loop marks for start minute `s` and duration `d`. */
  function SlotLabels(s: nat, d: int): set<string>
  {
    StepLabels(s, Steps(d))
  }

  /** `t`'s label is among the first `n` steps exactly when `t` is one of their minutes. */
  lemma {:induction false} StepImageMember(name: nat -> string, s: nat, n: nat, t: nat)
    requires InjectiveBelow(name, 100 * 60)
    requires t < 100 * 60 && (n == 0 || s + SlotStep * (n - 1) < 100 * 60)
    ensures name(t) in StepImage(name, s, n) <==> exists q :: 0 <= q < n && t == s + SlotStep * q
  {
    if n > 0 {
      StepImageMember(name, s, n - 1, t);
    }
  }

  /** The first `n` steps give `n` distinct labels while they stay below the bound. */
  lemma {:induction false} StepImageSize(name: nat -> string, s: nat, n: nat)
    requires InjectiveBelow(name, 100 * 60)
    requires n == 0 || s + SlotStep * (n - 1) < 100 * 60
    ensures |StepImage(name, s, n)| == n
  {
    if n > 0 {
      StepImageSize(name, s, n - 1);
      var last := s + SlotStep * (n - 1);
      assert name(last) !in StepImage(name, s, n - 1) by {
        StepImageMember(name, s, n - 1, last);
      }
    }
  }

  /**
   * The marks for start `s` and duration `d` are exactly the labels of s, s + 30, ... below
   * s + d, one per step, as long as the hours stay below 100.
   */
  lemma SlotLabelsExactly(s: nat, d: int)
    requires s + d <= 100 * 60
    ensures forall t: nat :: t < 100 * 60 ==>
              (Clock(t) in SlotLabels(s, d) <==> s <= t < s + d && (t - s) % SlotStep == 0)
    ensures |SlotLabels(s, d)| == Steps(d)
  {
    var n := Steps(d);
    if n > 0 {
      StepsBound(d, n - 1);
    }
    ClockInjectiveBelow();
    StepImageSize(Clock, s, n);
    forall t: nat | t < 100 * 60
      ensures Clock(t) in SlotLabels(s, d) <==> s <= t < s + d && (t - s) % SlotStep == 0
    {
      StepImageMember(Clock, s, n, t);
      StepIndex(s, d, t);
    }
  }

  /** `t` is one of the loop's minutes for start `s` and duration `d` exactly when it is a step below s + d. */
  lemma StepIndex(s: nat, d: int, t: nat)
    ensures (exists q :: 0 <= q < Steps(d) && t == s + SlotStep * q) <==>
            s <= t < s + d && (t - s) % SlotStep == 0
  {
    if s <= t && (t - s) % SlotStep == 0 {
      var q := (t - s) / SlotStep;
      assert t == s + SlotStep * q;
      StepsBound(d, q);
    }
    if exists q :: 0 <= q < Steps(d) && t == s + SlotStep * q {
      var q :| 0 <= q < Steps(d) && t == s + SlotStep * q;
      StepsBound(d, q);
    }
  }

  /** The duration the day view gives an appointment: that of its parsed services. */
  function AppointmentMinutes(a: AdminRoute.Appointment): int
  {
    Services.CalcDuration(ServiceList.ParseServices(a.serviceId))
  }

  /** The labels a single appointment marks: its steps if it is CONFIRMED, none otherwise. */
  function AppointmentLabels(a: AdminRoute.Appointment): set<string>
  {
    if a.status == AdminRoute.Confirmed then SlotLabels(MinuteOfDay(a.startsAt), AppointmentMinutes(a)) else {}
  }

  /** The labels a single block marks: from its start's to its end's local time. */
  function BlockLabels(b: Calendar.Interval): set<string>
  {
    SlotLabels(MinuteOfDay(b.start), MinuteOfDay(b.end) - MinuteOfDay(b.start))
  }

  /** The union of the first `n` sets of `parts`. */
  function UnionUpTo<T>(parts: seq<set<T>>, n: nat): set<T>
    requires n <= |parts|
  {
    if n == 0 then {} else UnionUpTo(parts, n - 1) + parts[n - 1]
  }

  lemma {:induction false} UnionUpToMembers<T>(parts: seq<set<T>>, n: nat, x: T)
    requires n <= |parts|
    ensures x in UnionUpTo(parts, n) <==> exists i :: 0 <= i < n && x in parts[i]
  {
    if n > 0 {
      UnionUpToMembers(parts, n - 1, x);
      if x in parts[n - 1] {
        assert 0 <= n - 1 < n;
      }
    }
  }

  function AppointmentParts(appts: seq<AdminRoute.Appointment>): (r: seq<set<string>>)
    ensures |r| == |appts| && forall i :: 0 <= i < |appts| ==> r[i] == AppointmentLabels(appts[i])
  {
    seq(|appts|, i requires 0 <= i < |appts| => AppointmentLabels(appts[i]))
  }

  function BlockParts(blocks: seq<Calendar.Interval>): (r: seq<set<string>>)
    ensures |r| == |blocks| && forall i :: 0 <= i < |blocks| ==> r[i] == BlockLabels(blocks[i])
  {
    seq(|blocks|, i requires 0 <= i < |blocks| => BlockLabels(blocks[i]))
  }

  /** `occupiedSlots` after the first `n` appointments. */
  function Occupied(appts: seq<AdminRoute.Appointment>, n: nat): set<string>
    requires n <= |appts|
  {
    UnionUpTo(AppointmentParts(appts), n)
  }

  /** `blockedSlots` after the first `n` blocks. */
  function Blocked(blocks: seq<Calendar.Interval>, n: nat): set<string>
    requires n <= |blocks|
  {
    UnionUpTo(BlockParts(blocks), n)
  }

  /** A label is occupied exactly when some CONFIRMED appointment's steps produce it. */
  lemma OccupiedMembers(appts: seq<AdminRoute.Appointment>, n: nat, mark: string)
    requires n <= |appts|
    ensures mark in Occupied(appts, n) <==> exists i :: 0 <= i < n && mark in AppointmentLabels(appts[i])
  {
    UnionUpToMembers(AppointmentParts(appts), n, mark);
  }

  /** A label is blocked exactly when some block's steps produce it. */
  lemma BlockedMembers(blocks: seq<Calendar.Interval>, n: nat, mark: string)
    requires n <= |blocks|
    ensures mark in Blocked(blocks, n) <==> exists i :: 0 <= i < n && mark in BlockLabels(blocks[i])
  {
    UnionUpToMembers(BlockParts(blocks), n, mark);
  }

  /**
   * `toSPTime(t)` read back with `split(':').map(Number)`: the label of the local time,
   * turned into minutes again, which is that local time.
   */
  method LabelMinute(t: int) returns (m: nat)
    ensures m == MinuteOfDay(t)
  {
    var time := Clock(MinuteOfDay(t));
    ReadClockOfClock(MinuteOfDay(t));
    m := ReadClock(time).value;
  }

  /** The inner loop: adds the labels for start `s` and duration `d` to `marks`. */
  method MarkSteps(marks: set<string>, s: nat, d: int) returns (r: set<string>)
    ensures r == marks + SlotLabels(s, d)
  {
    r := marks;
    var t := s;
    var k: nat := 0;
    while t < s + d
      invariant t == s + SlotStep * k
      invariant k <= Steps(d) || (d <= 0 && k == 0)
      invariant r == marks + StepLabels(s, k)
      decreases s + d - t
    {
      StepsBound(d, k);
      r := r + {Clock(t)};
      t := t + SlotStep;
      k := k + 1;
    }
    StepsBound(d, k);
    if d > 0 {
      assert k == Steps(d);
    }
  }

  lemma OccupiedStep(appts: seq<AdminRoute.Appointment>, i: nat)
    requires i < |appts|
    ensures Occupied(appts, i + 1) == Occupied(appts, i) + AppointmentLabels(appts[i])
  {
    assert AppointmentParts(appts)[i] == AppointmentLabels(appts[i]);
  }

  lemma BlockedStep(blocks: seq<Calendar.Interval>, i: nat)
    requires i < |blocks|
    ensures Blocked(blocks, i + 1) == Blocked(blocks, i) + BlockLabels(blocks[i])
  {
    assert BlockParts(blocks)[i] == BlockLabels(blocks[i]);
  }

  /** The body of the `confirmedApts.forEach` callback: marks one appointment's steps. */
  method MarkAppointment(occupied: set<string>, apt: AdminRoute.Appointment) returns (r: set<string>)
    requires apt.status == AdminRoute.Confirmed
    ensures r == occupied + AppointmentLabels(apt)
  {
    var startMin := LabelMinute(apt.startsAt);
    var svcs := ServiceList.ParseServices(apt.serviceId);
    var dur := Services.CalcDuration(svcs);
    r := MarkSteps(occupied, startMin, dur);
  }

  /** The body of the `blocks.forEach` callback: marks one block's steps. */
  method MarkBlock(blocked: set<string>, blk: Calendar.Interval) returns (r: set<string>)
    ensures r == blocked + BlockLabels(blk)
  {
    var startMin := LabelMinute(blk.start);
    var endMin: int := LabelMinute(blk.end);
    r := MarkSteps(blocked, startMin, endMin - startMin);
  }

  /** `occupiedSlots`: the loop over the CONFIRMED appointments. */
  method OccupiedSlots(appts: seq<AdminRoute.Appointment>) returns (occupied: set<string>)
    ensures occupied == Occupied(appts, |appts|)
  {
    occupied := {};
    for i := 0 to |appts|
      invariant occupied == Occupied(appts, i)
    {
      if appts[i].status == AdminRoute.Confirmed {
        occupied := MarkAppointment(occupied, appts[i]);
      }
      OccupiedStep(appts, i);
    }
  }

  /** `blockedSlots`: the loop over the blocks. */
  method BlockedSlots(blocks: seq<Calendar.Interval>) returns (blocked: set<string>)
    ensures blocked == Blocked(blocks, |blocks|)
  {
    blocked := {};
    for i := 0 to |blocks|
      invariant blocked == Blocked(blocks, i)
    {
      blocked := MarkBlock(blocked, blocks[i]);
      BlockedStep(blocks, i);
    }
  }

  /**
   * A block marks nothing exactly when its end's clock time is not after its start's, as
   * for a block that runs past midnight.
   */
  lemma BlockMarksNothing(b: Calendar.Interval)
    ensures BlockLabels(b) == {} <==> MinuteOfDay(b.end) <= MinuteOfDay(b.start)
  {
    var d := MinuteOfDay(b.end) - MinuteOfDay(b.start);
    if d > 0 {
      assert Clock(MinuteOfDay(b.start) + SlotStep * (Steps(d) - 1)) in BlockLabels(b);
    }
  }

  /** From 09:00, 90 minutes mark 09:00, 09:30 and 10:00; 31 minutes already reach into 09:30. */
  lemma ExampleMarks()
    ensures SlotLabels(9 * 60, 90) == {"09:00", "09:30", "10:00"}
    ensures SlotLabels(9 * 60, 31) == {"09:00", "09:30"}
  {
    assert StepLabels(540, 3) == {Clock(540), Clock(570), Clock(600)};
    assert StepLabels(540, 2) == {Clock(540), Clock(570)};
    ExampleClocks();
  }

  lemma ExampleClocks()
    ensures Clock(540) == "09:00" && Clock(570) == "09:30" && Clock(600) == "10:00"
  {
    assert Pad2(9) == "09" && Pad2(10) == "10" && Pad2(0) == "00" && Pad2(30) == "30";
  }
}
