# Nail salon scheduling core, in Dafny

This project models the scheduling logic of a nail salon's booking system:

- **Slot finder** (`lib/calendar.js`). It offers up to five free start times. It scans one requested day, or a 7-day window, from 07:00 until the cursor reaches 18:00. It skips Sundays, Mondays and the 11:00-12:00 lunch hour. It skips times that collide with the given appointments and blocks. On the current day it starts no earlier than now plus 30 minutes, rounded up to a half hour. moment keeps the clock's milliseconds in the cursor whenever the cursor is built from the clock reading. A candidate with such a residue also collides with an appointment or block that starts exactly where the candidate ends.
- **Admin API** (`app/api/admin/route.js`), over an in-memory store:
  - POST refuses a booking that overlaps a CONFIRMED appointment starting on the same date. It answers 409 and names the first such appointment. Otherwise it inserts a CONFIRMED row and registers the customer by phone.
  - PATCH sets only the status and times it is given.
  - GET lists appointments in a date range by start time, or customers by name.
- **Dashboard helpers** (`app/page.js`):
  - the service table, and price and duration sums;
  - the `service_id` JSON list and its parser;
  - the `HH:MM` time grid;
  - the day view's occupied and blocked half-hour marks;
  - the week and month date grids;
  - per-date opening overrides and the day toggle;
  - locally stored price and duration overrides;
  - the checks the booking and block forms make before posting.

Times are integer minutes of local time at the fixed offset UTC−3, counted from 1970-01-01 00:00 local:

- `Day(t) = t / 1440` and `MinuteOfDay(t) = t % 1440`, both floored.
- Weekdays are numbered from Sunday = 0, as JavaScript's `getDay()` numbers them. 1970-01-01 was a Thursday.

Modules, one per concern:

| module | file | models |
|---|---|---|
| `Wrappers`, `Time` | `time.dfy` | `Option`; minutes, days, weekdays and the half-open overlap test |
| `Calendar` | `calendar.dfy` | `checkOverlap` and `findAvailableSlots`. The `while` loop over days and the cursor loop inside it are methods. Each is proved equal to the recursive specification `FindSlotsSpec` / `Scan` / `DayScan`, and the offered slots are proved correct against that specification. |
| `Labels` | `labels.dfy` | `padStart(2, '0')`, the `HH:MM` label of a minute, reading a label back, and `TIME_SLOTS` |
| `ServiceList` | `service_list.dfy` | `JSON.stringify` of a list of service ids and `parseServices` |
| `Services` | `services.dfy` | `SERVICES`, `calcTotal`, `calcDuration`, `loadServices`, `saveEdit`, `hasOverrides` |
| `Sorting` | `sorting.dfy` | the `order(...)` of the GET queries, as an insertion sort on a total preorder |
| `AdminRoute` | `admin_route.dfy` | GET, POST and PATCH over a `Store` class holding the `appointments` and `customers` tables |
| `Schedule` | `schedule.dfy` | `isDefaultOpen`, `getOverride`, `isDayOpen` and `toggleDay`, with a `Board` class holding the overrides |
| `Dates` | `dates.dfy` | `getWeekDates` and `getMonthDates` on day indices |
| `DayView` | `day_view.dfy` | the `occupiedSlots` and `blockedSlots` sets filled by the day view's loops |
| `Booking` | `booking.dfy` | how the slot finder and the POST check fit together |
| `Forms` | `forms.dfy` | the service picker's `toggle` and the two forms' `handleSubmit` checks |

The slot finder hard-codes Sunday and Monday as closed (`lib/calendar.js:39-40`). It never consults the per-date overrides that the schedule page edits.

## Model

| member | source | states |
|---|---|---|
| Time.At | app/page.js:33 | the instant of a local date and time has that day and that minute of the day |
| Time.OverlapsIffCommonMinute | lib/calendar.js:6-8 | for non-empty intervals, `checkOverlap` holds exactly when some minute lies in both half-open intervals |
| Time.TouchingDoNotOverlap | lib/calendar.js:6-8 | intervals that only share an endpoint never overlap, in either order |
| Time.OverlapsSymmetric | lib/calendar.js:6-8 | the overlap test does not depend on which interval comes first |
| Time.WeekdayNext | lib/calendar.js:36-37 | the next day's weekday is the next weekday modulo 7; a week later the weekday is the same |
| Calendar.CollidesInMillis | lib/calendar.js:6-8 | on millisecond instants, a slot with a residue of 1-999 ms overlaps a whole-minute interval exactly when it starts before the interval's end and ends at or after its start; with no residue, exactly when the whole-minute slots overlap |
| Calendar.LunchInMillis | lib/calendar.js:65-69 | lunch bounds built from the candidate carry its residue, so the lunch test is the whole-minute test whatever the residue |
| Calendar.AcceptsLateAcceptsOnTime | lib/calendar.js:74-96 | a residue only adds collisions: a candidate accepted with one is accepted without, and acceptance without one is missing lunch and overlapping no appointment or block |
| Calendar.AnyOverlap | lib/calendar.js:74-96 | the conflict flag is raised exactly when some interval of the list overlaps the candidate slot |
| Calendar.HitsAnyInMillis | lib/calendar.js:74-96 | the conflict loop on millisecond instants finds a collision exactly when the residue-aware test finds one |
| Calendar.LunchConflict | lib/calendar.js:65-69 | the lunch check holds exactly when the candidate overlaps 11:00-12:00 of its day |
| Calendar.Conflicts | lib/calendar.js:74-96 | the appointment loop and then the block loop report a conflict exactly when the candidate, with its residue, collides with an appointment or a block |
| Calendar.IsFree | lib/calendar.js:65-99 | a candidate is pushed exactly when it misses lunch, the appointments and the blocks under its residue |
| Calendar.BufferedBounds | lib/calendar.js:46-51 | the earliest start on the current day lies between now + 30 and now + 60 minutes and falls on a half hour |
| Calendar.SetCursor | lib/calendar.js:43-56 | the day's first cursor is 07:00 of that day, moved up to the buffered time when the day is today and 07:00 is earlier; its milliseconds are the clock's when the day is a clone of the clock reading or the cursor becomes the buffered time, and zero otherwise |
| Calendar.StartDay | lib/calendar.js:18-23 | the scan starts on the requested date, but never before today |
| Calendar.ScanDay | lib/calendar.js:59-114 | the cursor loop of one day, run on millisecond instants, returns exactly the slots the recursive day scan accepts with the cursor's residue, given the slots already found |
| Calendar.VisitDay | lib/calendar.js:33-115 | one pass of the day loop appends that day's accepted slots: what is found so far plus what the remaining days yield is unchanged, and at most 5 slots are kept |
| Calendar.FindAvailableSlots | lib/calendar.js:11-118 | the imperative finder returns exactly the slot list of the recursive specification, for a clock reading in minutes and milliseconds |
| Calendar.FindAvailableSlotsWithDefaults | lib/calendar.js:11-16 | a missing duration counts as 60 minutes and missing appointments or blocks as none |
| Calendar.DayScanOffered | lib/calendar.js:59-96 | every slot a day scan accepts starts before 18:00 and misses the lunch hour, every appointment and every block, under the day's residue |
| Calendar.DayScanOrdered | lib/calendar.js:98-113 | a day's slots lie on that day at or after the first cursor, and each starts at least one service duration after the previous one |
| Calendar.ScanOffered | lib/calendar.js:33-115 | over all scanned days, every slot starts before 18:00 and misses lunch, appointments and blocks; when every day is a clone of a clock reading with milliseconds, no slot ends where an appointment or block starts |
| Calendar.DayScanBounds | lib/calendar.js:43-113 | one open day's slots lie on that day from 07:00, end before midnight, respect the buffer on today and are spaced by the service duration |
| Calendar.ScanPlaced | lib/calendar.js:33-115 | every slot lies in the scanned days on an open weekday, at or after 07:00, and at or after the buffered time on today; the slots are spaced by the service duration |
| Calendar.ScanAcceptedLate | lib/calendar.js:18-96 | every slot passes the collision test with the residue of its own day's cursor |
| Calendar.FindSlotsOffered | lib/calendar.js:18-96 | at most 5 slots are offered, and none overlaps lunch, an appointment or a block, or starts at 18:00 or later; with no date or a past one and a clock reading with milliseconds, none ends exactly where an appointment or block starts |
| Calendar.FindSlotsPlaced | lib/calendar.js:18-113 | slots lie within the window from the start day, on open weekdays, from 07:00, at least 30 minutes after now; each passes the collision test with its own day's residue; a requested date yields slots of that date only; slots strictly increase and do not overlap one another |
| Calendar.GappedDisjoint | lib/calendar.js:106-110 | slots spaced by a positive duration strictly increase and their service intervals are pairwise disjoint |
| Calendar.ClosedRequestedDay | lib/calendar.js:26-40 | a requested Sunday or Monday, today or later, yields no slots |
| Calendar.PastRequestedDay | lib/calendar.js:18-26 | a requested date in the past scans only today, from a clone of the clock reading; with no milliseconds that is the same as requesting today |
| Calendar.EmptyTuesdayExample | lib/calendar.js:43-113 | an empty Tuesday requested the day before, with a 60-minute service, yields 07:00, 08:00, 09:00, 10:00 and 12:00 |
| Calendar.BookedTuesdayExample | lib/calendar.js:74-113 | with 09:00-10:00 booked and a 30-minute service, the requested Tuesday yields 07:00, 07:30, 08:00, 08:30 and 10:00, whatever the clock's milliseconds |
| Calendar.WindowResidueExample | lib/calendar.js:18-113 | the same booking, asked for the week on Monday at 10:00 and some milliseconds, yields 07:00, 07:30, 08:00, 10:00 and 10:30: 08:30 ends where the booking starts and collides |
| Calendar.LateEveningExample | lib/calendar.js:46-59 | at exactly 23:10 the buffer rolls into the next day and the first slots are that day's 00:00 to 04:00 |
| Labels.Pad2Value | app/page.js:451-452 | `padStart(2, '0')` of a number below 100 is two digits that read back as that number |
| Labels.ReadClockOfClock | app/page.js:445-453 | a minute below 100 hours has a five-character `HH:MM` label that reads back as the same minute |
| Labels.ClockInjective | app/page.js:451-453 | two minutes below 100 hours have the same label only when they are equal |
| Labels.HalfHourLabels | app/page.js:24-26 | the labels pushed for hour `h` are those of minutes `60h` and `60h + 30` |
| Labels.GridUpToLabels | app/page.js:23-27 | the grid built up to an hour lists the labels of 07:00 onwards in 30-minute steps |
| Labels.TimeSlots | app/page.js:23-27 | `TIME_SLOTS` holds 26 labels, and entry `i` is the label of 07:00 plus 30·i minutes |
| ServiceList.ParseServices | app/page.js:44-47 | a missing or empty column gives no services, a JSON array gives its items, and any other text is one service id |
| ServiceList.DecodeEncode | app/page.js:46 | parsing the JSON text of a list of strings gives the list back |
| ServiceList.ParseServicesOfEncoded | app/page.js:892 | the `service_id` a booking is posted with reads back as exactly its services |
| ServiceList.PlainIdIsOneService | app/page.js:46 | an older plain id, not starting with `[`, reads as a single service |
| Services.TableIdsDistinct | app/page.js:8-18 | no two services share an id |
| Services.Find | app/page.js:48-49 | `find` returns the first row with the id, or reports that no row has it |
| Services.FindRow | app/page.js:48-49 | each row is what `find` returns for that row's own id |
| Services.CalcTotalAdditive | app/page.js:48 | the price of two lists together is the sum of their prices |
| Services.CalcDurationAdditive | app/page.js:49 | the duration of two lists together is the sum of their durations |
| Services.DurationOfAtLeast30 | app/page.js:49 | every id, known or unknown, counts at least 30 minutes |
| Services.CalcDurationLowerBound | app/page.js:49 | a list of services takes at least 30 minutes per item |
| Services.CalcTotalNonNegative | app/page.js:48 | a total price is never negative |
| Services.LoadServices | app/page.js:1152-1161 | the loaded list has the table's rows in order, and a row without a stored entry is the table's row |
| Services.OverridesUpToKeys | app/page.js:1178-1184 | after `k` rows the loop has stored exactly the differing rows among them, with their values, and no other key |
| Services.OverridesKeys | app/page.js:1178-1184 | a row's id is stored exactly when it differs from the table, and then with its price and duration |
| Services.LoadOverridesRoundTrip | app/page.js:1152-1186 | loading what `saveEdit` stores reproduces the list it stored |
| Services.EditThenReload | app/page.js:1173-1186 | after an edit and a save, reloading shows the edited list |
| Services.LoadNothing | app/page.js:1152-1161 | with nothing stored, the page shows the table unchanged |
| Services.HasOverridesIffStored | app/page.js:1199 | `hasOverrides` holds exactly when the stored object is non-empty |
| Services.SaveEdit | app/page.js:1173-1186 | the edited list changes only the row with the id, and the `forEach` loop stores exactly its differences from the table |
| Sorting.Insert | app/api/admin/route.js:30 | inserting into a sorted list keeps it sorted and adds exactly that element |
| Sorting.Sort | app/api/admin/route.js:30 | the result is sorted and is a permutation of the input |
| Sorting.StrLeTotal | app/api/admin/route.js:21 | any two names are ordered one way or the other |
| Sorting.StrLeTransitive | app/api/admin/route.js:21 | the name order is transitive |
| Sorting.StrLeAntisymmetric | app/api/admin/route.js:21 | names ordered both ways are equal |
| AdminRoute.FirstCollider | app/api/admin/route.js:63-74 | the first same-day CONFIRMED row overlapping the interval, with no collider before it, or none at all |
| AdminRoute.Upsert | app/api/admin/route.js:92-94 | after the upsert the phone maps to the new name, other phones are unchanged, and a row is added only for a new phone |
| AdminRoute.UpsertKeepsUniquePhones | app/api/admin/route.js:92-94 | the upsert adds at most the new customer and keeps phones unique |
| AdminRoute.PostKeepsNoSameDayOverlap | app/api/admin/route.js:53-87 | a booking that passes the check keeps the same-day CONFIRMED rows pairwise non-overlapping |
| AdminRoute.PreviousDayNotChecked | app/api/admin/route.js:53-61 | a booking from 23:30 to 00:30 does not stop a 00:00-01:00 booking on the next day, although they overlap |
| AdminRoute.PatchOnlyGivenFields | app/api/admin/route.js:106-116 | PATCH leaves other rows alone, and in the row with the id changes only the status and times it was given |
| AdminRoute.CancelFreesSlot | app/api/admin/route.js:56-61 | a cancelled row no longer collides with any booking |
| AdminRoute.PatchSkipsCheck | app/api/admin/route.js:103-125 | a reschedule through PATCH can make two CONFIRMED rows overlap, since it runs no check |
| AdminRoute.Filter | app/api/admin/route.js:32-33 | the range filter keeps exactly the rows starting on or after the first day and by 23:59 of the last, with their multiplicities |
| AdminRoute.ListAppointments | app/api/admin/route.js:27-38 | GET appointments returns exactly the rows in range, sorted by start |
| AdminRoute.ByNameTotalPreorder | app/api/admin/route.js:21 | ordering customers by name is a total preorder |
| AdminRoute.ListCustomers | app/api/admin/route.js:17-23 | GET customers returns all customers, sorted by name |
| AdminRoute.PatchAllOne | app/api/admin/route.js:113-118 | with unique ids, updating by id changes exactly one row |
| AdminRoute.Store.constructor | app/api/admin/route.js:4-7 | a new store is empty and valid |
| AdminRoute.Store.FindConflict | app/api/admin/route.js:63-74 | the check loop of POST finds the first colliding row |
| AdminRoute.Store.Post | app/api/admin/route.js:45-100 | a collision gives 409, names the first collider's customer and leaves the store unchanged; otherwise exactly one CONFIRMED row with the given fields is appended and the customer is upserted |
| AdminRoute.Store.IndexOfId | app/api/admin/route.js:116 | the position of the row with the id, or none when no row has it |
| AdminRoute.Store.Patch | app/api/admin/route.js:103-125 | the rows become the partial update of the row with the id; an unknown id changes nothing and gives NotFound, which stands for the 500 answer that `.single()` causes when no row matches; customers are untouched |
| Schedule.GetOverride | app/page.js:1539 | an override with the date from the list, or none exactly when no override has that date |
| Schedule.GetOverrideFirst | app/page.js:1539 | the override returned is the one at the first index holding the date, as `Array.find` returns it |
| Schedule.OverrideWins | app/page.js:1541-1546 | the single override of a date decides; with none, the day is open exactly when it is neither Sunday nor Monday |
| Schedule.Decide | app/page.js:1548-1576 | an override away from the default is deleted; otherwise the opposite state is posted, with the exception reason only when there was no override |
| Schedule.ToggleFlips | app/page.js:1548-1579 | with at most one override per date, a toggle flips that date's state and leaves every other date as it was |
| Schedule.OverridesNeverLoad | app/page.js:1523-1576 | when the loaded rows carry no matching date, as the appointment rows the route sends back do, the day shows its weekly default and a click always posts the opposite of that default with its reason |
| Schedule.InsertWouldNotFlip | app/page.js:1558-1566 | had the posted row merely been added after an existing one, clicking an open Tuesday with an "open" override would leave it open |
| Schedule.Board.DeleteOverride | app/page.js:1560 | the override with the id is removed and nothing else changes |
| Schedule.Board.PostOverride | app/page.js:1563-1566 | the date's override takes the posted state, or one is added under the next id |
| Schedule.Board.ToggleDay | app/page.js:1548-1580 | the board becomes the decided action applied to it, and with well-formed overrides the date's state is flipped |
| Dates.WeekDatesProperties | app/page.js:51-56 | the week grid is 7 consecutive days from a Monday and contains its base day; a Sunday is the last day of its grid |
| Dates.MonthDatesProperties | app/page.js:58-63 | the month grid is 42 consecutive days from a Sunday in the week of the 1st; it contains the 1st and the 30 days after it |
| Dates.CivilExamples | app/page.js:59 | the day count of 1970-01-01 is 0, and 2026-10-13 is day 20739, a Tuesday |
| Dates.OctoberGridExample | app/page.js:58-63 | the grid of October 2026 starts on Sunday 27 September |
| Dates.MonthRollsOverExample | app/page.js:59 | month 12 of 2025 is January 2026 |
| DayView.SlotLabelsExactly | app/page.js:450-454 | the marks for start `s` and length `d` are exactly the labels of `s`, `s+30`, … below `s+d`, and there are ⌈d/30⌉ of them |
| DayView.OccupiedMembers | app/page.js:440-455 | a label is occupied exactly when some CONFIRMED appointment marks it |
| DayView.BlockedMembers | app/page.js:457-471 | a label is blocked exactly when some block marks it |
| DayView.LabelMinute | app/page.js:445-447 | reading back the local time label of an instant gives its minute of the day |
| DayView.MarkSteps | app/page.js:450-454 | the `for` loop adds exactly the labels of the 30-minute steps |
| DayView.MarkAppointment | app/page.js:444-454 | one appointment adds the labels from its start over the duration of its services |
| DayView.MarkBlock | app/page.js:459-470 | one block adds the labels from its start up to its end |
| DayView.OccupiedSlots | app/page.js:440-455 | the filled set is the union of the marks of all CONFIRMED appointments |
| DayView.BlockedSlots | app/page.js:457-471 | the filled set is the union of the marks of all blocks |
| DayView.BlockMarksNothing | app/page.js:466 | a block marks nothing exactly when its end time of day is not after its start time of day |
| DayView.ExampleMarks | app/page.js:450-454 | 90 minutes from 09:00 mark 09:00, 09:30 and 10:00; 31 minutes mark 09:00 and 09:30 |
| Booking.OfferedSlotIsBookable | app/api/admin/route.js:53-74 | a slot offered against the CONFIRMED bookings passes POST's conflict check |
| Booking.LunchIsBookableButNotOffered | app/api/admin/route.js:63-74 | POST accepts a lunch-hour booking that the finder never offers |
| Forms.Without | app/page.js:876 | removing an id keeps exactly the other ids |
| Forms.ToggleFlips | app/page.js:876 | a toggle flips whether the id is chosen, keeps every other id, and appends a new id at the end |
| Forms.ToggleKeepsNoDuplicates | app/page.js:876 | the picker never lists an id twice |
| Forms.ToggleTwice | app/page.js:876 | choosing an id and dropping it again gives back the previous choice |
| Forms.SubmitAppointment | app/page.js:880-892 | no service gives the error message; otherwise the booking carries the name and phone, starts at the chosen date and time, ends the summed service duration later, sends the services as their JSON list, and sends the notes exactly when not empty |
| Forms.SubmittedBookingRoundTrip | app/page.js:884-892 | the booking lasts at least 30 minutes per service, its `service_id` reads back as the chosen services, and the day view marks the stored row for exactly the booked length |
| Forms.SubmitBlock | app/page.js:1296-1311 | an end not after the start is refused with the error message; otherwise the block spans the chosen times of the date, and an empty title becomes "Bloqueado" |
| Forms.SentBlockIsShown | app/page.js:1296-1311 | a block the form sends marks its start time in the day view, and exactly its half-hour steps |

## Left out

- Time zones and formatting: `moment-timezone`, `toLocaleTimeString` and `toISOString` are replaced by minute arithmetic at a fixed UTC−3.
- Seconds of the clock reading are not modelled: `second(0)` clears them from every cursor. Its milliseconds are modelled as a parameter of 0 to 999. Appointment and block times are whole minutes.
- The database session's time zone, used for the GET and POST date bounds (`T00:00:00`, `T23:59:59`), is not modelled. They are read as local days, and `T23:59:59` is taken to the minute.
- Supabase is an in-memory `Store` whose calls succeed. These error paths are left out: a thrown store error, `existing` being null, and `.single()` failing because several rows match. The no-row case of PATCH is modelled as NotFound.
- The race between POST's check and its insert is not modelled. POST is one sequential step.
- Network calls, React state and rendering, `localStorage` reads and writes, and the fallback when the stored JSON fails to parse are left out. Only the diff and merge of the overrides are modelled.
- The admin route has no branch for `type: 'block'`, `type: 'schedule'` or `type: 'blocks'`, and has no DELETE handler.
- Schedule.Board.DeleteOverride, Schedule.Board.PostOverride, Schedule.Board.ToggleDay: these apply the toggle the way the page expects, not as the program behaves. As written, a POST with `type: 'schedule'` reaches the booking POST, throws at `starts_at.split('T')` (`app/api/admin/route.js:53`) and is answered with 500 (lines 97-98). A DELETE finds no handler. `loadOverrides` reads `?type=schedule` (`app/page.js:1525`), which returns appointment rows without a `date`, so no override ever loads and every day stays at its weekly default. Schedule.OverridesNeverLoad states that outcome.
- ServiceList.Decode: does not accept whitespace between JSON tokens, arrays that hold anything but strings, or surrogate-pair escapes. `JSON.stringify` never writes these for a list of ids.
- Services.SaveEdit: takes the edited price and duration as integers. `Number(...)` of the form's text can give a fraction or NaN. NaN is stored as `null` and reloads through `??` as the table's value, so the reload round trip fails for it.
- Forms.SubmitAppointment: takes the time input as minutes after local midnight that are already parsed. The `HH:MM` text is left out.
- Calendar.FindSlotsPlaced: holds only for a service of at most 6 hours and a current time no later than 23:00. Longer services or later times move the cursor past midnight; Calendar.LateEveningExample shows the second case.
- Calendar.DayScanOrdered: assumes a service of more than 0 and at most 360 minutes, for the same reason.
- The WhatsApp webhook, the reminder cron job, the OpenAI client and the layout are outside this model. The webhook's call to the finder passes no appointments or blocks.
- AdminRoute.ListCustomers: orders names by character code, not by the database's collation.
- Float arithmetic for display (average ticket, chart heights) and CSV export are left out.
