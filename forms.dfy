/**
 * The dashboard's two booking forms (app/page.js:870-892 and 1290-1312): the service
 * picker's `toggle`, the checks `handleSubmit` makes before posting, and the request it
 * builds. Times are day indices plus minutes after local midnight.
 */
module Forms {
  import opened Wrappers
  import opened Time
  import Labels
  import Services
  import ServiceList
  import AdminRoute
  import Calendar
  import DayView

  const NoServiceError: string := "Selecione ao menos um serviço."
  const BlockOrderError: string := "Horário final deve ser depois do inicial."
  const DefaultBlockTitle: string := "Bloqueado"

  // ---------------------------------------------------------------------------------------
  // The service picker
  // ---------------------------------------------------------------------------------------

  /** `services.filter(s => s !== id)`. */
  function Without(l: seq<string>, id: string): (r: seq<string>)
    ensures forall x :: x in r <==> x in l && x != id
    ensures id !in l ==> r == l
    ensures |r| <= |l|
  {
    if l == [] then []
    else (if l[0] == id then [] else [l[0]]) + Without(l[1..], id)
  }

  /** `toggle(id)`: removes every copy of a chosen id, or appends an id not yet chosen. */
  function Toggle(l: seq<string>, id: string): seq<string>
  {
    if id in l then Without(l, id) else l + [id]
  }

  predicate NoDuplicates(l: seq<string>)
  {
    forall i, j :: 0 <= i < j < |l| ==> l[i] != l[j]
  }

  /** Toggling flips whether `id` is chosen and leaves every other id as it was. */
  lemma ToggleFlips(l: seq<string>, id: string)
    ensures id in Toggle(l, id) <==> id !in l
    ensures forall x :: x != id ==> (x in Toggle(l, id) <==> x in l)
    ensures id !in l ==> Toggle(l, id) == l + [id]
  {
    if id !in l {
      assert id in l + [id];
    }
  }

  lemma {:induction false} WithoutKeepsNoDuplicates(l: seq<string>, id: string)
    requires NoDuplicates(l)
    ensures NoDuplicates(Without(l, id))
  {
    if l != [] {
      assert NoDuplicates(l[1..]) by {
        forall i, j | 0 <= i < j < |l[1..]|
          ensures l[1..][i] != l[1..][j]
        {
          assert l[1..][i] == l[i + 1] && l[1..][j] == l[j + 1];
        }
      }
      WithoutKeepsNoDuplicates(l[1..], id);
      assert l[0] !in l[1..] by {
        forall k | 0 <= k < |l[1..]|
          ensures l[1..][k] != l[0]
        {
          assert l[1..][k] == l[k + 1];
        }
      }
      var rest := Without(l[1..], id);
      var head: seq<string> := if l[0] == id then [] else [l[0]];
      forall i, j | 0 <= i < j < |head + rest|
        ensures (head + rest)[i] != (head + rest)[j]
      {
        if i < |head| {
          assert (head + rest)[j] in rest;
        }
      }
    }
  }

  /** Starting from no services, the picker never lists an id twice. */
  lemma ToggleKeepsNoDuplicates(l: seq<string>, id: string)
    requires NoDuplicates(l)
    ensures NoDuplicates(Toggle(l, id))
  {
    if id in l {
      WithoutKeepsNoDuplicates(l, id);
    } else {
      var r := l + [id];
      forall i, j | 0 <= i < j < |r|
        ensures r[i] != r[j]
      {
        if j == |l| {
          assert r[i] == l[i];
        }
      }
    }
  }

  /** Picking an id and then dropping it again gives back the previous choice. */
  lemma ToggleTwice(l: seq<string>, id: string)
    requires id !in l
    ensures Toggle(Toggle(l, id), id) == l
  {
    assert id in l + [id];
    WithoutAppended(l, id);
  }

  lemma {:induction false} WithoutAppended(l: seq<string>, id: string)
    requires id !in l
    ensures Without(l + [id], id) == l
  {
    if l == [] {
      assert Without([id], id) == [] + Without([], id);
    } else {
      assert (l + [id])[0] == l[0] && (l + [id])[1..] == l[1..] + [id];
      WithoutAppended(l[1..], id);
    }
  }

  // ---------------------------------------------------------------------------------------
  // New appointment
  // ---------------------------------------------------------------------------------------

  /** The form's fields; `minute` is the `time` input as minutes after local midnight. */
  datatype AppointmentForm = AppointmentForm(customerName: string, customerPhone: string,
                                             services: seq<string>, date: int, minute: int,
                                             notes: string)

  /** The body `handleSubmit` posts, or the error it shows. */
  datatype Submission =
    | Rejected(error: string)
    | Send(customerName: string, customerPhone: string, serviceId: string,
           startsAt: int, endsAt: int, notes: Option<string>)

  /**
   * `handleSubmit`: no service is an error; otherwise the booking starts at the chosen
   * local date and time, lasts the summed duration of the services, carries them as a JSON
   * array and drops empty notes.
   */
  function SubmitAppointment(f: AppointmentForm): (r: Submission)
    requires 0 <= f.minute < MinutesPerDay
    ensures r.Rejected? <==> f.services == []
    ensures r.Rejected? ==> r.error == NoServiceError
    ensures r.Send? ==> Day(r.startsAt) == f.date && MinuteOfDay(r.startsAt) == f.minute
    ensures r.Send? ==> (r.notes.None? <==> f.notes == "") && (r.notes.Some? ==> r.notes.value == f.notes)
    ensures r.Send? ==> r.endsAt == r.startsAt + Services.CalcDuration(f.services)
    ensures r.Send? ==> r.serviceId == ServiceList.Encode(f.services)
    ensures r.Send? ==> r.customerName == f.customerName && r.customerPhone == f.customerPhone
  {
    if |f.services| == 0 then Rejected(NoServiceError)
    else
      var startsAt := At(f.date, f.minute);
      var endsAt := startsAt + Services.CalcDuration(f.services);
      Send(f.customerName, f.customerPhone, ServiceList.Encode(f.services), startsAt, endsAt,
           if f.notes == "" then None else Some(f.notes))
  }

  /**
   * A submitted booking ends at least 30 minutes per service after it starts, its
   * `service_id` reads back as exactly the chosen services, and the day view gives the
   * stored row exactly the booked length.
   */
  lemma SubmittedBookingRoundTrip(f: AppointmentForm, id: nat)
    requires 0 <= f.minute < MinutesPerDay
    ensures var r := SubmitAppointment(f);
            r.Send? ==>
              r.endsAt - r.startsAt >= 30 * |f.services| > 0 &&
              ServiceList.ParseServices(Some(r.serviceId)) == f.services &&
              DayView.AppointmentMinutes(AdminRoute.Appointment(id, r.customerName, r.customerPhone,
                Some(r.serviceId), r.startsAt, r.endsAt, AdminRoute.Confirmed, None)) == r.endsAt - r.startsAt
  {
    ServiceList.ParseServicesOfEncoded(f.services);
    Services.CalcDurationLowerBound(f.services);
  }

  // ---------------------------------------------------------------------------------------
  // Block
  // ---------------------------------------------------------------------------------------

  /** The block form: a title and two times of one date. */
  datatype BlockForm = BlockForm(title: string, date: int, startMinute: int, endMinute: int)

  datatype BlockSubmission =
    | BlockRejected(error: string)
    | BlockSend(title: string, startsAt: int, endsAt: int)

  /** `BlockModal.handleSubmit`: the end must come after the start; an empty title becomes "Bloqueado". */
  function SubmitBlock(f: BlockForm): (r: BlockSubmission)
    requires 0 <= f.startMinute < MinutesPerDay && 0 <= f.endMinute < MinutesPerDay
    ensures r.BlockRejected? <==> f.endMinute <= f.startMinute
    ensures r.BlockRejected? ==> r.error == BlockOrderError
    ensures r.BlockSend? ==>
              r.startsAt < r.endsAt && Day(r.startsAt) == f.date && Day(r.endsAt) == f.date &&
              MinuteOfDay(r.startsAt) == f.startMinute && MinuteOfDay(r.endsAt) == f.endMinute &&
              r.title != "" && (f.title != "" ==> r.title == f.title)
  {
    var startsAt := At(f.date, f.startMinute);
    var endsAt := At(f.date, f.endMinute);
    if endsAt <= startsAt then BlockRejected(BlockOrderError)
    else BlockSend(if f.title == "" then DefaultBlockTitle else f.title, startsAt, endsAt)
  }

  /**
   * A block the form lets through marks its starting label in the day view, and every
   * label it marks is one of its own half-hour steps.
   */
  lemma SentBlockIsShown(f: BlockForm)
    requires 0 <= f.startMinute < MinutesPerDay && 0 <= f.endMinute < MinutesPerDay
    ensures var r := SubmitBlock(f);
            r.BlockSend? ==>
              Labels.Clock(f.startMinute) in DayView.BlockLabels(Calendar.Interval(r.startsAt, r.endsAt)) &&
              forall t: nat :: t < 100 * 60 ==>
                (Labels.Clock(t) in DayView.BlockLabels(Calendar.Interval(r.startsAt, r.endsAt)) <==>
                 f.startMinute <= t < f.endMinute && (t - f.startMinute) % DayView.SlotStep == 0)
  {
    var r := SubmitBlock(f);
    if r.BlockSend? {
      BlockShownBetween(f.startMinute, f.endMinute, Calendar.Interval(r.startsAt, r.endsAt));
    }
  }

  /** The labels of a block from `s` to `e` minutes after midnight of one day. */
  lemma BlockShownBetween(s: int, e: int, b: Calendar.Interval)
    requires 0 <= s < e < MinutesPerDay
    requires MinuteOfDay(b.start) == s && MinuteOfDay(b.end) == e
    ensures Labels.Clock(s) in DayView.BlockLabels(b)
    ensures forall t: nat :: t < 100 * 60 ==>
              (Labels.Clock(t) in DayView.BlockLabels(b) <==> s <= t < e && (t - s) % DayView.SlotStep == 0)
  {
    assert DayView.BlockLabels(b) == DayView.SlotLabels(s, e - s);
    DayView.SlotLabelsExactly(s, e - s);
  }
}
