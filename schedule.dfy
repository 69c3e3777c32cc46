/**
 * The schedule page (app/page.js:1514-1580): per-date overrides of the weekly default
 * (closed on Sunday and Monday), and the decision `toggleDay` takes when a day is clicked.
 *
 * The page sends the decision to the admin API as a DELETE by id or a POST with
 * `type: 'schedule'`. The Board class applies it the way the page expects: a delete
 * removes that override, a post sets the date's override, adding one if the date has none.
 * The admin route has neither handler; OverridesNeverLoad states what the page then shows.
 */
module Schedule {
  import opened Wrappers
  import opened Time

  const OpenedReason: string := "Aberto por exceção"
  const ClosedReason: string := "Fechado por exceção"

  /** A row of schedule overrides: `date` is a day index. */
  datatype Override = Override(id: nat, date: int, isOpen: bool, reason: string)

  /** `isDefaultOpen`: the weekday is not in `DEFAULT_CLOSED = [0, 1]`. */
  predicate IsDefaultOpen(date: int)
  {
    Weekday(date) != Sunday && Weekday(date) != Monday
  }

  /** `getOverride`: the first override for the date. */
  function GetOverride(overrides: seq<Override>, date: int): (r: Option<Override>)
    ensures r.Some? ==> r.value in overrides && r.value.date == date
    ensures r.None? <==> forall o :: o in overrides ==> o.date != date
  {
    if overrides == [] then None
    else if overrides[0].date == date then Some(overrides[0])
    else GetOverride(overrides[1..], date)
  }

  /** `Array.find`'s order: the override returned is the one at the first index with the date. */
  lemma {:induction false} GetOverrideFirst(overrides: seq<Override>, date: int, k: nat)
    requires k < |overrides| && overrides[k].date == date
    requires forall j :: 0 <= j < k ==> overrides[j].date != date
    ensures GetOverride(overrides, date) == Some(overrides[k])
  {
    if k > 0 {
      GetOverrideFirst(overrides[1..], date, k - 1);
    }
  }

  /** `isDayOpen`: an override decides; without one, the weekly default does. */
  predicate IsDayOpen(overrides: seq<Override>, date: int)
  {
    match GetOverride(overrides, date)
    case Some(o) => o.isOpen
    case None => IsDefaultOpen(date)
  }

  /** Whatever the weekday, an override for the date wins, in either direction. */
  lemma OverrideWins(overrides: seq<Override>, date: int)
    ensures forall o :: o in overrides && o.date == date && (forall p :: p in overrides && p.date == date ==> p == o)
              ==> IsDayOpen(overrides, date) == o.isOpen
    ensures (forall o :: o in overrides ==> o.date != date) ==>
              (IsDayOpen(overrides, date) <==> Weekday(date) != Sunday && Weekday(date) != Monday)
  {
  }

  /** What `toggleDay` asks the API for. */
  datatype Action = Delete(id: nat) | Post(date: int, isOpen: bool, reason: string)

  /**
   * `toggleDay(date)`: an override away from the default is deleted; an override equal
   * to the default is posted again with the opposite state and no reason; with no
   * override, the opposite state is posted with the matching reason.
   */
  function Decide(overrides: seq<Override>, date: int): (a: Action)
    ensures GetOverride(overrides, date).Some? && IsDayOpen(overrides, date) != IsDefaultOpen(date)
            <==> a.Delete?
    ensures a.Delete? ==> a.id == GetOverride(overrides, date).value.id
    ensures a.Post? ==> a.date == date && a.isOpen == !IsDayOpen(overrides, date)
    ensures a.Post? && GetOverride(overrides, date).None? ==>
              a.reason == (if a.isOpen then OpenedReason else ClosedReason)
    ensures a.Post? && GetOverride(overrides, date).Some? ==> a.reason == ""
  {
    var currentlyOpen := IsDayOpen(overrides, date);
    match GetOverride(overrides, date)
    case Some(o) =>
      if currentlyOpen != IsDefaultOpen(date) then Delete(o.id) else Post(date, !currentlyOpen, "")
    case None =>
      Post(date, !currentlyOpen, if !currentlyOpen then OpenedReason else ClosedReason)
  }

  /** At most one override per date, and ids distinct. */
  predicate WellFormed(overrides: seq<Override>)
  {
    (forall i, j :: 0 <= i < j < |overrides| ==> overrides[i].date != overrides[j].date) &&
    (forall i, j :: 0 <= i < j < |overrides| ==> overrides[i].id != overrides[j].id)
  }

  function RemoveId(overrides: seq<Override>, id: nat): (r: seq<Override>)
    ensures forall o :: o in r <==> o in overrides && o.id != id
    ensures |r| <= |overrides|
  {
    if overrides == [] then []
    else (if overrides[0].id == id then [] else [overrides[0]]) + RemoveId(overrides[1..], id)
  }

  /** Sets the state and reason of the date's override in place, or appends one with `newId`. */
  function SetDate(overrides: seq<Override>, newId: nat, date: int, isOpen: bool, reason: string)
    : (r: seq<Override>)
    ensures GetOverride(overrides, date).None? ==> r == overrides + [Override(newId, date, isOpen, reason)]
    ensures GetOverride(overrides, date).Some? ==> |r| == |overrides|
  {
    if overrides == [] then [Override(newId, date, isOpen, reason)]
    else if overrides[0].date == date then [overrides[0].(isOpen := isOpen, reason := reason)] + overrides[1..]
    else [overrides[0]] + SetDate(overrides[1..], newId, date, isOpen, reason)
  }

  /** The override list after the action, `newId` being the id a new row would get. */
  function Perform(overrides: seq<Override>, newId: nat, a: Action): seq<Override>
  {
    match a
    case Delete(id) => RemoveId(overrides, id)
    case Post(date, isOpen, reason) => SetDate(overrides, newId, date, isOpen, reason)
  }

  lemma {:induction false} RemoveIdOthers(overrides: seq<Override>, id: nat, date: int)
    requires WellFormed(overrides)
    ensures GetOverride(overrides, date).Some? && GetOverride(overrides, date).value.id == id ==>
              GetOverride(RemoveId(overrides, id), date).None?
    ensures GetOverride(overrides, date).None? || GetOverride(overrides, date).value.id != id ==>
              GetOverride(RemoveId(overrides, id), date) == GetOverride(overrides, date)
  {
    if overrides != [] {
      WellFormedTail(overrides);
      RemoveIdOthers(overrides[1..], id, date);
      var head := overrides[0];
      if head.id == id {
        assert RemoveId(overrides, id) == RemoveId(overrides[1..], id);
        if head.date != date {
          assert GetOverride(overrides, date) == GetOverride(overrides[1..], date);
        }
      } else {
        assert RemoveId(overrides, id) == [head] + RemoveId(overrides[1..], id);
      }
    }
  }

  /** The rows after the first are well formed, and none shares its date or id. */
  lemma WellFormedTail(overrides: seq<Override>)
    requires WellFormed(overrides) && overrides != []
    ensures WellFormed(overrides[1..])
    ensures forall o :: o in overrides[1..] ==> o.date != overrides[0].date && o.id != overrides[0].id
  {
    forall i, j | 0 <= i < j < |overrides[1..]|
      ensures overrides[1..][i].date != overrides[1..][j].date
      ensures overrides[1..][i].id != overrides[1..][j].id
    {
      assert overrides[1..][i] == overrides[i + 1] && overrides[1..][j] == overrides[j + 1];
    }
    forall o | o in overrides[1..]
      ensures o.date != overrides[0].date && o.id != overrides[0].id
    {
      var k :| 0 <= k < |overrides[1..]| && overrides[1..][k] == o;
      assert overrides[k + 1] == o;
    }
  }

  lemma {:induction false} SetDateEffect(overrides: seq<Override>, newId: nat, date: int, isOpen: bool,
                                         reason: string, other: int)
    ensures GetOverride(SetDate(overrides, newId, date, isOpen, reason), date).Some?
    ensures GetOverride(SetDate(overrides, newId, date, isOpen, reason), date).value.isOpen == isOpen
    ensures other != date ==>
              GetOverride(SetDate(overrides, newId, date, isOpen, reason), other) == GetOverride(overrides, other)
  {
    var r := SetDate(overrides, newId, date, isOpen, reason);
    if overrides == [] {
      assert r == [Override(newId, date, isOpen, reason)];
    } else if overrides[0].date == date {
      assert r[0].date == date && r[1..] == overrides[1..];
    } else {
      SetDateEffect(overrides[1..], newId, date, isOpen, reason, other);
      assert r[0] == overrides[0] && r[1..] == SetDate(overrides[1..], newId, date, isOpen, reason);
    }
  }

  /**
   * With at most one override per date, toggling flips whether the date is open and
   * leaves every other date as it was.
   */
  lemma ToggleFlips(overrides: seq<Override>, newId: nat, date: int)
    requires WellFormed(overrides)
    ensures IsDayOpen(Perform(overrides, newId, Decide(overrides, date)), date) == !IsDayOpen(overrides, date)
    ensures forall other :: other != date ==>
              IsDayOpen(Perform(overrides, newId, Decide(overrides, date)), other) == IsDayOpen(overrides, other)
  {
    var a := Decide(overrides, date);
    match a
    case Delete(id) =>
      RemoveIdOthers(overrides, id, date);
      forall other | other != date
        ensures IsDayOpen(RemoveId(overrides, id), other) == IsDayOpen(overrides, other)
      {
        RemoveIdOthers(overrides, id, other);
      }
    case Post(d, isOpen, reason) =>
      SetDateEffect(overrides, newId, date, isOpen, reason, date);
      forall other | other != date
        ensures IsDayOpen(SetDate(overrides, newId, date, isOpen, reason), other) == IsDayOpen(overrides, other)
      {
        SetDateEffect(overrides, newId, date, isOpen, reason, other);
      }
  }

  /**
   * Had the API merely inserted the posted row, an override equal to the default would
   * stay first for its date and a click would change nothing: an open Tuesday with an
   * "open" override stays open.
   */
  lemma InsertWouldNotFlip()
    ensures var tuesday := 20739;
            var overrides := [Override(0, tuesday, true, "")];
            var a := Decide(overrides, tuesday);
            a.Post? && IsDayOpen(overrides + [Override(1, a.date, a.isOpen, a.reason)], tuesday) ==
                       IsDayOpen(overrides, tuesday)
  {
  }

  /**
   * As the program is written, the page loads its overrides with `GET ?type=schedule`
   * (app/page.js:1525), which the admin route answers with appointment rows
   * (app/api/admin/route.js:26-38). Such rows carry no `date`, so none matches a day: in
   * `rows` no date is `date`. The day then shows its weekly default, and a click always
   * posts the opposite of that default with its reason; the route answers that POST with
   * 500 and the reloaded rows are the same, so the day never changes.
   */
  lemma OverridesNeverLoad(rows: seq<Override>, date: int)
    requires forall o :: o in rows ==> o.date != date
    ensures IsDayOpen(rows, date) == IsDefaultOpen(date)
    ensures Decide(rows, date) ==
              Post(date, !IsDefaultOpen(date), if IsDefaultOpen(date) then ClosedReason else OpenedReason)
  {
  }

  /** The overrides of the schedule page and the id the next new override gets. */
  class Board {
    var overrides: seq<Override>
    var nextId: nat

    constructor (initial: seq<Override>, firstFreeId: nat)
      ensures overrides == initial && nextId == firstFreeId
    {
      overrides := initial;
      nextId := firstFreeId;
    }

    /** DELETE `?id=...&type=schedule`. */
    method DeleteOverride(id: nat)
      modifies this
      ensures overrides == RemoveId(old(overrides), id) && nextId == old(nextId)
    {
      overrides := RemoveId(overrides, id);
    }

    /** POST `{ type: 'schedule', date, is_open, reason }`. */
    method PostOverride(date: int, isOpen: bool, reason: string)
      modifies this
      ensures overrides == SetDate(old(overrides), old(nextId), date, isOpen, reason)
      ensures nextId == old(nextId) + 1
    {
      overrides := SetDate(overrides, nextId, date, isOpen, reason);
      nextId := nextId + 1;
    }

    /** `toggleDay`: the branches of app/page.js:1552-1576. */
    method ToggleDay(date: int)
      modifies this
      ensures overrides == Perform(old(overrides), old(nextId), Decide(old(overrides), date))
      ensures WellFormed(old(overrides)) ==>
                IsDayOpen(overrides, date) == !IsDayOpen(old(overrides), date)
    {
      ghost var before := overrides;
      ghost var newId := nextId;
      var override := GetOverride(overrides, date);
      var currentlyOpen := IsDayOpen(overrides, date);
      if override.Some? {
        var defaultState := IsDefaultOpen(date);
        if currentlyOpen != defaultState {
          DeleteOverride(override.value.id);
        } else {
          PostOverride(date, !currentlyOpen, "");
        }
      } else {
        var reason := if !currentlyOpen then OpenedReason else ClosedReason;
        PostOverride(date, !currentlyOpen, reason);
      }
      if WellFormed(before) {
        ToggleFlips(before, newId, date);
      }
    }
  }
}
