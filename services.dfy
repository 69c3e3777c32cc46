/**
 * The service table of the dashboard (app/page.js:8-18), the price and duration sums of a
 * booking (app/page.js:48-49), and the services page's local price/duration overrides
 * (app/page.js:1152-1199).
 */
module Services {
  import opened Wrappers

  datatype Service = Service(id: string, name: string, price: int, duration: int)

  /** `SERVICES`: id (equal to the name), price in reais, duration in minutes. */
  const Table: seq<Service> := [
    Service("Fibra ou Molde F1", "Fibra ou Molde F1", 190, 120),
    Service("Banho de Gel", "Banho de Gel", 150, 90),
    Service("Manutenção", "Manutenção", 150, 90),
    Service("Manutenção (outra prof.)", "Manutenção (outra prof.)", 170, 90),
    Service("Remoção", "Remoção", 45, 30),
    Service("Esmaltação Básica", "Esmaltação Básica", 20, 30),
    Service("Esmaltação Premium", "Esmaltação Premium", 25, 45),
    Service("Esm. ou Pó + Francesinha", "Esm. ou Pó + Francesinha", 35, 45),
    Service("Esm. + Francesinha + Pó", "Esm. + Francesinha + Pó", 45, 60)
  ]

  /** Duration `calcDuration` counts for an id it does not know. */
  const UnknownDuration: int := 60

  /** No two services share an id, so `find` by id picks out one row. */
  lemma TableIdsDistinct()
    ensures forall i, j :: 0 <= i < j < |Table| ==> Table[i].id != Table[j].id
  {
  }

  /** `SERVICES.find(s => s.id === id)`: the first row with that id. */
  function Find(id: string, from: nat := 0): (r: Option<nat>)
    requires from <= |Table|
    ensures r.Some? ==> from <= r.value < |Table| && Table[r.value].id == id
    ensures r.None? ==> forall i :: from <= i < |Table| ==> Table[i].id != id
    decreases |Table| - from
  {
    if from == |Table| then None
    else if Table[from].id == id then Some(from)
    else Find(id, from + 1)
  }

  /** Row `i` is what `find` returns for its own id. */
  lemma FindRow(i: nat)
    requires i < |Table|
    ensures Find(Table[i].id) == Some(i)
  {
    TableIdsDistinct();
  }

  /** `?.price || 0`. */
  function PriceOf(id: string): int
  {
    match Find(id)
    case Some(i) => if Table[i].price != 0 then Table[i].price else 0
    case None => 0
  }

  /** `?.duration || 60`. */
  function DurationOf(id: string): int
  {
    match Find(id)
    case Some(i) => if Table[i].duration != 0 then Table[i].duration else UnknownDuration
    case None => UnknownDuration
  }

  /** `calcTotal`: the running sum of `reduce`, from the left. */
  function CalcTotal(ids: seq<string>): int
  {
    if ids == [] then 0 else CalcTotal(ids[..|ids| - 1]) + PriceOf(ids[|ids| - 1])
  }

  /** `calcDuration`: the running sum of `reduce`, from the left. */
  function CalcDuration(ids: seq<string>): int
  {
    if ids == [] then 0 else CalcDuration(ids[..|ids| - 1]) + DurationOf(ids[|ids| - 1])
  }

  lemma {:induction false} CalcTotalAdditive(a: seq<string>, b: seq<string>)
    ensures CalcTotal(a + b) == CalcTotal(a) + CalcTotal(b)
    decreases |b|
  {
    if b == [] {
      assert a + b == a;
    } else {
      var front := b[..|b| - 1];
      CalcTotalAdditive(a, front);
      assert (a + b)[..|a + b| - 1] == a + front;
    }
  }

  lemma {:induction false} CalcDurationAdditive(a: seq<string>, b: seq<string>)
    ensures CalcDuration(a + b) == CalcDuration(a) + CalcDuration(b)
    decreases |b|
  {
    if b == [] {
      assert a + b == a;
    } else {
      var front := b[..|b| - 1];
      CalcDurationAdditive(a, front);
      assert (a + b)[..|a + b| - 1] == a + front;
    }
  }

  /** Every service lasts at least 30 minutes, an unknown one 60. */
  lemma DurationOfAtLeast30(id: string)
    ensures DurationOf(id) >= 30
  {
    match Find(id)
    case Some(i) =>
      assert Table[i] in Table;
    case None =>
  }

  /** A booking of `n` services takes at least 30 * n minutes, so it is never empty. */
  lemma {:induction false} CalcDurationLowerBound(ids: seq<string>)
    ensures CalcDuration(ids) >= 30 * |ids|
    decreases |ids|
  {
    if ids != [] {
      CalcDurationLowerBound(ids[..|ids| - 1]);
      DurationOfAtLeast30(ids[|ids| - 1]);
    }
  }

  lemma CalcTotalNonNegative(ids: seq<string>)
    ensures CalcTotal(ids) >= 0
  {
    if ids != [] {
      CalcTotalNonNegative(ids[..|ids| - 1]);
      match Find(ids[|ids| - 1])
      case Some(i) => assert Table[i] in Table;
      case None =>
    }
  }

  // ---------------------------------------------------------------------------------------
  // Overrides kept by the services page
  // ---------------------------------------------------------------------------------------

  /** One entry of the stored `services_overrides` object; a missing field is None. */
  datatype Entry = Entry(price: Option<int>, duration: Option<int>)

  /** `a ?? b`. */
  function OrElse(a: Option<int>, b: int): int
  {
    if a.Some? then a.value else b
  }

  /** The page's list of services: the table's rows, in order, with prices and durations edited. */
  predicate IsVariant(l: seq<Service>)
  {
    |l| == |Table| && forall i :: 0 <= i < |l| ==> l[i].id == Table[i].id && l[i].name == Table[i].name
  }

  /** `loadServices` on the parsed stored object: each row takes the stored value if there is one. */
  function LoadServices(saved: map<string, Entry>): (l: seq<Service>)
    ensures IsVariant(l)
    ensures forall i :: 0 <= i < |l| && Table[i].id !in saved ==> l[i] == Table[i]
  {
    seq(|Table|, i requires 0 <= i < |Table| =>
      var s := Table[i];
      if s.id in saved
      then Service(s.id, s.name, OrElse(saved[s.id].price, s.price), OrElse(saved[s.id].duration, s.duration))
      else s)
  }

  /** The `services.map` step of `saveEdit`: the row with `id` takes the edited values. */
  function Edit(l: seq<Service>, id: string, price: int, duration: int): (r: seq<Service>)
    ensures |r| == |l|
  {
    seq(|l|, i requires 0 <= i < |l| =>
      if l[i].id == id then l[i].(price := price, duration := duration) else l[i])
  }

  /** Row `i` of a variant differs from the table's default. */
  predicate Differs(l: seq<Service>, i: nat)
    requires IsVariant(l) && i < |l|
  {
    l[i].price != Table[i].price || l[i].duration != Table[i].duration
  }

  /** The entries the `forEach` of `saveEdit` has stored after looking at the first `k` rows. */
  function OverridesUpTo(l: seq<Service>, k: nat): map<string, Entry>
    requires IsVariant(l) && k <= |l|
  {
    if k == 0 then map[]
    else if Differs(l, k - 1) then
      OverridesUpTo(l, k - 1)[l[k - 1].id := Entry(Some(l[k - 1].price), Some(l[k - 1].duration))]
    else OverridesUpTo(l, k - 1)
  }

  /** What `saveEdit` stores. */
  function Overrides(l: seq<Service>): map<string, Entry>
    requires IsVariant(l)
  {
    OverridesUpTo(l, |l|)
  }

  lemma {:induction false} OverridesUpToKeys(l: seq<Service>, k: nat)
    requires IsVariant(l) && k <= |l|
    ensures forall i :: 0 <= i < |l| ==>
              (l[i].id in OverridesUpTo(l, k) <==> i < k && Differs(l, i))
    ensures forall i :: 0 <= i < k && Differs(l, i) ==>
              OverridesUpTo(l, k)[l[i].id] == Entry(Some(l[i].price), Some(l[i].duration))
    ensures forall key :: key in OverridesUpTo(l, k) ==>
              exists i :: 0 <= i < k && l[i].id == key
  {
    if k > 0 {
      OverridesUpToKeys(l, k - 1);
      TableIdsDistinct();
    }
  }

  /** A key of the stored object is the id of a row that differs, and its entry holds that row's values. */
  lemma OverridesKeys(l: seq<Service>, i: nat)
    requires IsVariant(l) && i < |l|
    ensures l[i].id in Overrides(l) <==> Differs(l, i)
    ensures Differs(l, i) ==> Overrides(l)[l[i].id] == Entry(Some(l[i].price), Some(l[i].duration))
  {
    OverridesUpToKeys(l, |l|);
  }

  /** Reloading what was stored reproduces the list: only differences are kept, and nothing is lost. */
  lemma LoadOverridesRoundTrip(l: seq<Service>)
    requires IsVariant(l)
    ensures LoadServices(Overrides(l)) == l
  {
    var m := Overrides(l);
    var r := LoadServices(m);
    forall i | 0 <= i < |l|
      ensures r[i] == l[i]
    {
      OverridesKeys(l, i);
    }
  }

  /** Editing a row keeps the list a variant, and reloading after the save shows the edit. */
  lemma EditThenReload(l: seq<Service>, id: string, price: int, duration: int)
    requires IsVariant(l)
    ensures IsVariant(Edit(l, id, price, duration))
    ensures LoadServices(Overrides(Edit(l, id, price, duration))) == Edit(l, id, price, duration)
  {
    LoadOverridesRoundTrip(Edit(l, id, price, duration));
  }

  /** With nothing stored the page shows the defaults (also what a failing parse falls back to). */
  lemma LoadNothing()
    ensures LoadServices(map[]) == Table
  {
  }

  /** `hasOverrides`: some row differs from the table's row at the same position. */
  predicate HasOverrides(l: seq<Service>)
    requires |l| <= |Table|
  {
    exists i :: 0 <= i < |l| && (l[i].price != Table[i].price || l[i].duration != Table[i].duration)
  }

  /** The "reset" button shows exactly when something is stored. */
  lemma HasOverridesIffStored(l: seq<Service>)
    requires IsVariant(l)
    ensures HasOverrides(l) <==> Overrides(l) != map[]
  {
    OverridesUpToKeys(l, |l|);
    if HasOverrides(l) {
      var i :| 0 <= i < |l| && (l[i].price != Table[i].price || l[i].duration != Table[i].duration);
      assert Differs(l, i);
    }
    if Overrides(l) != map[] {
      var k :| k in Overrides(l);
      var i :| 0 <= i < |l| && l[i].id == k;
      assert Differs(l, i);
    }
  }

  /**
   * `saveEdit(id)`: the edited list, and the overrides object filled by the `forEach` loop
   * that compares each row with the table row `find` returns for its id.
   */
  method SaveEdit(services: seq<Service>, id: string, price: int, duration: int)
    returns (updated: seq<Service>, overrides: map<string, Entry>)
    requires IsVariant(services)
    ensures IsVariant(updated)
    ensures updated == Edit(services, id, price, duration)
    ensures overrides == Overrides(updated)
  {
    updated := Edit(services, id, price, duration);
    overrides := map[];
    for k := 0 to |updated|
      invariant overrides == OverridesUpTo(updated, k)
    {
      var s := updated[k];
      FindRow(k);
      var original := Table[Find(s.id).value];
      if s.price != original.price || s.duration != original.duration {
        overrides := overrides[s.id := Entry(Some(s.price), Some(s.duration))];
      }
    }
  }
}
