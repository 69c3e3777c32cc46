/**
 * The administrative API (app/api/admin/route.js) over an in-memory store of appointment
 * and customer rows.
 *
 * POST checks the new booking against the CONFIRMED appointments that start on the same
 * date and refuses it with 409 naming the first one it overlaps; otherwise it inserts a
 * CONFIRMED row and registers the customer by phone. PATCH sets only the status and times
 * it is given. GET lists appointments in a date range by start, or customers by name.
 */
module AdminRoute {
  import opened Wrappers
  import opened Time
  import Labels
  import Sorting

  const Confirmed: string := "CONFIRMED"
  const Cancelled: string := "CANCELLED"
  const ConflictStatus: int := 409
  /** Last minute of a day the GET filter still accepts (`T23:59:59`, to the minute). */
  const LastMinute: int := 23 * 60 + 59

  /**
   * A row of `appointments`. `id` is assigned by the store; `serviceId` is the JSON text
   * of the service list; `status` is the text the row holds.
   */
  datatype Appointment = Appointment(id: nat, customerName: string, customerPhone: string,
                                     serviceId: Option<string>, startsAt: int, endsAt: int,
                                     status: string, notes: Option<string>)

  /** A row of `customers`, unique by phone. */
  datatype Customer = Customer(phone: string, name: string)

  // ---------------------------------------------------------------------------------------
  // POST
  // ---------------------------------------------------------------------------------------

  /**
   * The rows the POST check reacts to: CONFIRMED, starting on the date of `start`
   * (lib query of app/api/admin/route.js:56-61), overlapping [start, end) (line 67).
   */
  predicate Collides(a: Appointment, start: int, end: int)
  {
    a.status == Confirmed && Day(a.startsAt) == Day(start) && Overlaps(start, end, a.startsAt, a.endsAt)
  }

  /** The first row, in store order from `from` on, that the new booking collides with. */
  function FirstCollider(appts: seq<Appointment>, start: int, end: int, from: nat := 0): (k: Option<nat>)
    requires from <= |appts|
    ensures k.Some? ==> from <= k.value < |appts| && Collides(appts[k.value], start, end) &&
                        forall j :: from <= j < k.value ==> !Collides(appts[j], start, end)
    ensures k.None? <==> forall j :: from <= j < |appts| ==> !Collides(appts[j], start, end)
    decreases |appts| - from
  {
    if from == |appts| then None
    else if Collides(appts[from], start, end) then Some(from)
    else FirstCollider(appts, start, end, from + 1)
  }

  /** The 409 message: the colliding customer and the local HH:MM of its start. */
  function ConflictMessage(a: Appointment): string
  {
    "Conflito de horário! Já existe agendamento de " + a.customerName + " às " +
    Labels.Clock(MinuteOfDay(a.startsAt)) + "."
  }

  datatype PostResult = Created(record: Appointment) | Conflict(status: int, message: string)

  /** The name the customers table holds for `phone`, if any. */
  function Lookup(cs: seq<Customer>, phone: string): Option<string>
  {
    if cs == [] then None
    else if cs[0].phone == phone then Some(cs[0].name)
    else Lookup(cs[1..], phone)
  }

  predicate UniquePhones(cs: seq<Customer>)
  {
    forall i, j :: 0 <= i < j < |cs| ==> cs[i].phone != cs[j].phone
  }

  /**
   * `upsert({ phone, name }, { onConflict: 'phone' })`: the row with that phone takes the
   * new name in place; without one, a row is added.
   */
  function Upsert(cs: seq<Customer>, phone: string, name: string): (r: seq<Customer>)
    ensures Lookup(r, phone) == Some(name)
    ensures forall p :: p != phone ==> Lookup(r, p) == Lookup(cs, p)
    ensures |r| == if Lookup(cs, phone).Some? then |cs| else |cs| + 1
  {
    if cs == [] then [Customer(phone, name)]
    else if cs[0].phone == phone then [Customer(phone, name)] + cs[1..]
    else [cs[0]] + Upsert(cs[1..], phone, name)
  }

  /** The upserted table holds the old rows and the new one, and still one row per phone. */
  lemma {:induction false} UpsertKeepsUniquePhones(cs: seq<Customer>, phone: string, name: string)
    ensures forall c :: c in Upsert(cs, phone, name) ==> c in cs || c == Customer(phone, name)
    ensures UniquePhones(cs) ==> UniquePhones(Upsert(cs, phone, name))
  {
    if cs != [] && cs[0].phone != phone {
      var rest := Upsert(cs[1..], phone, name);
      UpsertKeepsUniquePhones(cs[1..], phone, name);
      if UniquePhones(cs) {
        forall c | c in rest
          ensures c.phone != cs[0].phone
        {
          if c in cs[1..] {
            var j :| 0 <= j < |cs[1..]| && cs[1..][j] == c;
            assert cs[j + 1] == c;
          }
        }
        assert UniquePhones(cs[1..]) by {
          forall i, j | 0 <= i < j < |cs[1..]|
            ensures cs[1..][i].phone != cs[1..][j].phone
          {
            assert cs[1..][i] == cs[i + 1] && cs[1..][j] == cs[j + 1];
          }
        }
      }
    }
  }

  /** No two CONFIRMED rows that start on the same date overlap: what the POST check keeps. */
  predicate NoSameDayOverlap(appts: seq<Appointment>)
  {
    forall i, j :: 0 <= i < |appts| && 0 <= j < |appts| && i != j ==>
      !(appts[i].status == Confirmed && Collides(appts[j], appts[i].startsAt, appts[i].endsAt))
  }

  /** Appending a CONFIRMED row that POST let through keeps NoSameDayOverlap. */
  lemma PostKeepsNoSameDayOverlap(appts: seq<Appointment>, rec: Appointment)
    requires NoSameDayOverlap(appts)
    requires rec.status == Confirmed
    requires FirstCollider(appts, rec.startsAt, rec.endsAt).None?
    ensures NoSameDayOverlap(appts + [rec])
  {
    var all := appts + [rec];
    forall i, j | 0 <= i < |all| && 0 <= j < |all| && i != j
      ensures !(all[i].status == Confirmed && Collides(all[j], all[i].startsAt, all[i].endsAt))
    {
      if j == |appts| {
        assert !Collides(appts[i], rec.startsAt, rec.endsAt);
      } else if i == |appts| {
        assert !Collides(appts[j], rec.startsAt, rec.endsAt);
      }
    }
  }

  /**
   * Only rows starting on the new booking's date are checked: a CONFIRMED 23:30-00:30 row
   * of the day before does not stop a 00:00-01:00 booking, though the two overlap.
   */
  lemma PreviousDayNotChecked(d: int)
    ensures var late := Appointment(0, "A", "1", None, At(d, 23 * 60 + 30), At(d + 1, 30), Confirmed, None);
            Overlaps(At(d + 1, 0), At(d + 1, 60), late.startsAt, late.endsAt) &&
            FirstCollider([late], At(d + 1, 0), At(d + 1, 60)).None?
  {
  }

  // ---------------------------------------------------------------------------------------
  // PATCH
  // ---------------------------------------------------------------------------------------

  /** The `update` object: the fields PATCH sets, None for those it leaves alone. */
  datatype Update = Update(status: Option<string>, startsAt: Option<int>, endsAt: Option<int>)

  function Apply(a: Appointment, u: Update): Appointment
  {
    a.(status := if u.status.Some? then u.status.value else a.status,
       startsAt := if u.startsAt.Some? then u.startsAt.value else a.startsAt,
       endsAt := if u.endsAt.Some? then u.endsAt.value else a.endsAt)
  }

  /** `update(update).eq('id', id)`: every row with that id takes the update. */
  function PatchAll(appts: seq<Appointment>, id: nat, u: Update): (r: seq<Appointment>)
    ensures |r| == |appts|
  {
    seq(|appts|, i requires 0 <= i < |appts| => if appts[i].id == id then Apply(appts[i], u) else appts[i])
  }

  /**
   * PATCH changes only the given status and times of the row with that id: the other
   * rows, and every other field (notes included), stay as they were.
   */
  lemma PatchOnlyGivenFields(appts: seq<Appointment>, id: nat, u: Update)
    ensures forall i :: 0 <= i < |appts| && appts[i].id != id ==> PatchAll(appts, id, u)[i] == appts[i]
    ensures forall i :: 0 <= i < |appts| && appts[i].id == id ==>
              var b := PatchAll(appts, id, u)[i];
              b.id == id && b.customerName == appts[i].customerName &&
              b.customerPhone == appts[i].customerPhone && b.serviceId == appts[i].serviceId &&
              b.notes == appts[i].notes &&
              b.status == (if u.status.Some? then u.status.value else appts[i].status) &&
              b.startsAt == (if u.startsAt.Some? then u.startsAt.value else appts[i].startsAt) &&
              b.endsAt == (if u.endsAt.Some? then u.endsAt.value else appts[i].endsAt)
  {
  }

  /** A row PATCHed to CANCELLED no longer collides with any booking. */
  lemma CancelFreesSlot(appts: seq<Appointment>, id: nat, start: int, end: int)
    ensures forall i :: 0 <= i < |appts| && appts[i].id == id ==>
              !Collides(PatchAll(appts, id, Update(Some(Cancelled), None, None))[i], start, end)
  {
  }

  /**
   * PATCH moves a row without the POST check: rescheduling the 10:00 row of a day to 09:30
   * makes it overlap the 09:00-10:00 row.
   */
  lemma PatchSkipsCheck(d: int)
    ensures var appts := [Appointment(1, "A", "1", None, At(d, 540), At(d, 600), Confirmed, None),
                          Appointment(2, "B", "2", None, At(d, 600), At(d, 660), Confirmed, None)];
            NoSameDayOverlap(appts) &&
            !NoSameDayOverlap(PatchAll(appts, 2, Update(None, Some(At(d, 570)), Some(At(d, 630)))))
  {
    var appts := [Appointment(1, "A", "1", None, At(d, 540), At(d, 600), Confirmed, None),
                  Appointment(2, "B", "2", None, At(d, 600), At(d, 660), Confirmed, None)];
    var moved := PatchAll(appts, 2, Update(None, Some(At(d, 570)), Some(At(d, 630))));
    assert moved[1].startsAt == At(d, 570);
    assert Collides(moved[1], moved[0].startsAt, moved[0].endsAt);
  }

  /**
   * The answer to PATCH: the updated row, or NotFound when no row has the id, where
   * `.single()` reports an error and the route answers 500 (app/api/admin/route.js:118-124).
   */
  datatype PatchResult = Updated(record: Appointment) | NotFound

  // ---------------------------------------------------------------------------------------
  // GET
  // ---------------------------------------------------------------------------------------

  /** `gte('starts_at', start + 'T00:00:00')` and `lte('starts_at', end + 'T23:59:59')`. */
  predicate InRange(a: Appointment, startDay: Option<int>, endDay: Option<int>)
  {
    (startDay.Some? ==> a.startsAt >= At(startDay.value, 0)) &&
    (endDay.Some? ==> a.startsAt <= At(endDay.value, LastMinute))
  }

  function Filter(appts: seq<Appointment>, startDay: Option<int>, endDay: Option<int>): (r: seq<Appointment>)
    ensures forall a :: multiset(r)[a] == if InRange(a, startDay, endDay) then multiset(appts)[a] else 0
  {
    if appts == [] then []
    else
      assert appts == [appts[0]] + appts[1..];
      (if InRange(appts[0], startDay, endDay) then [appts[0]] else []) + Filter(appts[1..], startDay, endDay)
  }

  function ByStart(a: Appointment, b: Appointment): bool
  {
    a.startsAt <= b.startsAt
  }

  function ByName(a: Customer, b: Customer): bool
  {
    Sorting.StrLe(a.name, b.name)
  }

  lemma ByNameTotalPreorder()
    ensures Sorting.TotalPreorder(ByName)
  {
    forall a: Customer, b: Customer
      ensures ByName(a, b) || ByName(b, a)
    {
      Sorting.StrLeTotal(a.name, b.name);
    }
    forall a: Customer, b: Customer, c: Customer | ByName(a, b) && ByName(b, c)
      ensures ByName(a, c)
    {
      Sorting.StrLeTransitive(a.name, b.name, c.name);
    }
  }

  /**
   * GET appointments: the rows starting in the range (a bound left out or empty is not
   * applied), each as often as it is stored, ordered by start.
   */
  function ListAppointments(appts: seq<Appointment>, startDay: Option<int>, endDay: Option<int>)
    : (r: seq<Appointment>)
    ensures Sorting.SortedBy(r, ByStart)
    ensures forall a :: multiset(r)[a] == if InRange(a, startDay, endDay) then multiset(appts)[a] else 0
  {
    Sorting.Sort(Filter(appts, startDay, endDay), ByStart)
  }

  /** GET `type=customers`: every customer row, ordered by name. */
  function ListCustomers(cs: seq<Customer>): (r: seq<Customer>)
    ensures multiset(r) == multiset(cs)
    ensures Sorting.SortedBy(r, ByName)
  {
    ByNameTotalPreorder();
    Sorting.Sort(cs, ByName)
  }

  predicate UniqueIds(appts: seq<Appointment>)
  {
    forall i, j :: 0 <= i < j < |appts| ==> appts[i].id != appts[j].id
  }

  lemma PatchAllOne(appts: seq<Appointment>, k: nat, u: Update)
    requires UniqueIds(appts) && k < |appts|
    ensures PatchAll(appts, appts[k].id, u) == appts[k := Apply(appts[k], u)]
  {
  }

  // ---------------------------------------------------------------------------------------
  // The store
  // ---------------------------------------------------------------------------------------

  /** The `appointments` and `customers` tables, and the next id the store will assign. */
  class Store {
    var appointments: seq<Appointment>
    var customers: seq<Customer>
    var nextId: nat

    ghost predicate Valid()
      reads this
    {
      UniqueIds(appointments) && (forall a :: a in appointments ==> a.id < nextId) &&
      UniquePhones(customers)
    }

    constructor ()
      ensures Valid() && appointments == [] && customers == [] && nextId == 0
    {
      appointments := [];
      customers := [];
      nextId := 0;
    }

    /** The check loop of POST (app/api/admin/route.js:63-74): the first colliding row. */
    method FindConflict(start: int, end: int) returns (k: Option<nat>)
      ensures k == FirstCollider(appointments, start, end)
    {
      var i := 0;
      while i < |appointments|
        invariant 0 <= i <= |appointments|
        invariant FirstCollider(appointments, start, end) == FirstCollider(appointments, start, end, i)
      {
        var apt := appointments[i];
        if apt.status == Confirmed && Day(apt.startsAt) == Day(start) &&
           start < apt.endsAt && end > apt.startsAt {
          return Some(i);
        }
        i := i + 1;
      }
      return None;
    }

    /**
     * POST: 409 with the first collider's message and the store untouched, or one new
     * CONFIRMED row with the given fields (no notes) and the customer upserted by phone.
     */
    method Post(customerName: string, customerPhone: string, serviceId: Option<string>,
                startsAt: int, endsAt: int) returns (r: PostResult)
      requires Valid()
      modifies this
      ensures Valid()
      ensures r.Conflict? <==> FirstCollider(old(appointments), startsAt, endsAt).Some?
      ensures r.Conflict? ==>
                r.status == ConflictStatus &&
                r.message == ConflictMessage(old(appointments)[FirstCollider(old(appointments), startsAt, endsAt).value]) &&
                appointments == old(appointments) && customers == old(customers) && nextId == old(nextId)
      ensures r.Created? ==>
                r.record == Appointment(old(nextId), customerName, customerPhone, serviceId, startsAt,
                                        endsAt, Confirmed, None) &&
                appointments == old(appointments) + [r.record] &&
                customers == Upsert(old(customers), customerPhone, customerName) &&
                nextId == old(nextId) + 1
    {
      var k := FindConflict(startsAt, endsAt);
      if k.Some? {
        return Conflict(ConflictStatus, ConflictMessage(appointments[k.value]));
      }
      var record := Appointment(nextId, customerName, customerPhone, serviceId, startsAt, endsAt,
                                Confirmed, None);
      appointments := appointments + [record];
      nextId := nextId + 1;
      UpsertKeepsUniquePhones(customers, customerPhone, customerName);
      customers := Upsert(customers, customerPhone, customerName);
      r := Created(record);
    }

    /** The position of the row with `id`, if there is one. */
    method IndexOfId(id: nat) returns (k: Option<nat>)
      ensures k.Some? ==> k.value < |appointments| && appointments[k.value].id == id
      ensures k.None? ==> forall i :: 0 <= i < |appointments| ==> appointments[i].id != id
    {
      for i := 0 to |appointments|
        invariant forall j :: 0 <= j < i ==> appointments[j].id != id
      {
        if appointments[i].id == id {
          return Some(i);
        }
      }
      return None;
    }

    /**
     * PATCH: the `update` object gets `status` when it is a non-empty string and each time
     * that is given; `notes` is never put in it. A missing id changes nothing and is answered
     * with NotFound, the 500 that `.single()` causes.
     */
    method Patch(id: nat, status: Option<string>, startsAt: Option<int>, endsAt: Option<int>,
                 notes: Option<string>) returns (r: PatchResult)
      requires Valid()
      modifies this
      ensures Valid()
      ensures customers == old(customers) && nextId == old(nextId)
      ensures appointments == PatchAll(old(appointments), id,
                                       Update(if status.Some? && status.value != "" then status else None,
                                              startsAt, endsAt))
      ensures r.NotFound? <==> forall i :: 0 <= i < |old(appointments)| ==> old(appointments)[i].id != id
      ensures r.Updated? ==> r.record in appointments && r.record.id == id
    {
      var update := Update(None, None, None);
      if status.Some? && status.value != "" {
        update := update.(status := status);
      }
      if startsAt.Some? {
        update := update.(startsAt := startsAt);
      }
      if endsAt.Some? {
        update := update.(endsAt := endsAt);
      }
      var k := IndexOfId(id);
      if k.None? {
        assert PatchAll(appointments, id, update) == appointments;
        return NotFound;
      }
      PatchAllOne(appointments, k.value, update);
      appointments := appointments[k.value := Apply(appointments[k.value], update)];
      r := Updated(appointments[k.value]);
    }
  }
}
