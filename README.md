# Appointment booking rules, modelled in Dafny

The repository is a small Flask back end for booking time slots. Clients add,
update, list, inspect and delete appointments. This project models the part
with real rules: the checks the add and update handlers run before writing an
appointment, the conflict scan over stored appointments, and the five
handlers over the `appointments` table.

Modules:

- `Calendar` (`calendar.dfy`): timestamps and the fixed-format parsers.
  A timestamp is a number of whole seconds since 0001-01-01 00:00 in the
  proleptic Gregorian calendar, so the day of a timestamp is `t / 86400`.
  Day 0 is a Monday, so `day % 7` is Python's `weekday()` and Sunday is 6.
  `ParseDate`, `ParseClock` and `ParseClockSeconds` read `YYYY-MM-DD`,
  `HH:MM` and `HH:MM:SS`. They return `None` where `strptime` would raise.
  Each is proved to be the exact inverse of a formatter, in both directions.
- `Booking` (`booking.dfy`): the validator and the intersection rule.
  `Validate` checks, in the handlers' order: blank fields, parsing, a past
  start, an inverted interval (the same rejection as a past start), Sunday,
  and then the 09:00–17:00 window. The window test is inclusive at both ends.
  The add handler reads `HH:MM` only. The update handler first tries `HH:MM:SS`
  for both times and then `HH:MM` for both. Two half-open intervals `[a,b)`
  and `[c,d)` intersect when `a < d && c < b`.
- `Scheduling` (`store.dfy`): the class `Store`, which holds the table as a map
  from id to `Appointment` and a counter `nextId`. Its methods are
  `Add`, `Update`, `List`, `Get` and `Delete`. `FindConflict` is the loop that
  stops at the first stored row that intersects, skipping one id on update.
  `Store.Valid()` holds four facts. Ids lie below the counter, so an id is
  never issued twice. Each row is keyed by its own id. Every row passed the
  validator: Monday to Saturday, inside 09:00–17:00, start no later than end.
  No two rows intersect. Every handler keeps `Valid()`.
- `Scenarios` (`scenarios.dfy`): a client sequence on any day that is not a
  Sunday. A booking for 09:00–10:00 is added. A booking for 09:30–10:30 gets
  409. A back-to-back booking for 10:00–11:00 is added. The sequence is then
  instantiated on Tuesday 2024-01-02, and deleting a record twice there gives 202 and
  then 404. Each step follows from the handlers' contracts alone.

Responses are a `Response(status, category)`: 201 added, 202 updated or
deleted, 200 details or listing, 406 for validation rejections, 409 for a
conflict, 404 for a missing id. The handlers take the clock reading `clock`
in microseconds, as `datetime.now()` gives it. The validator's `now` is that
reading rounded up to a whole second (`SecondsUp`). Every parsed start is a
whole second, so the strict past test `now > start` holds exactly when the
reading is later than the start (`PastTestExact`). A blank listing bound is
the date of the reading itself (`DateOfReading`), not of the rounded-up value.

Where the intended behaviour of the booking API and the code differ, the model
follows the code:

- The code rejects `start > end` only, so an empty interval
  (`start == end`) is accepted. The intended rule is `start < end`.
- A string that cannot be parsed makes `strptime` raise, and the code does not
  catch it, so the server answers 500 and writes nothing. The model returns the
  rejection `Unparseable` with status 500. The intended behaviour is a
  406-style rejection.
- On update, the fallback to `HH:MM` applies to both times together. So one
  time with seconds and one without is read by neither format
  (`MixedTimeFormatsUnreadable`).

## Model

| member | source | states |
|---|---|---|
| `Calendar.Weekday` | app.py:67 | the weekday of a day number lies in 0..6, with Monday = 0 as `date.weekday()` numbers it |
| `Calendar.SecondsUp` | app.py:61 | the reading rounded up: the least whole second whose microsecond count is not below the reading |
| `Calendar.PastTestExact` | app.py:61 | against a whole-second start, the rounded-up reading is later exactly when the microsecond reading is, so the past test loses nothing |
| `Calendar.DateOfReading` | app.py:176-178 | `datetime.now().date()`: the day whose microseconds contain the reading |
| `Calendar.DayNumber` | app.py:67 | the day number of a date (`toordinal()` minus one, the count `weekday()` is taken from) lies inside the range of its own year |
| `Calendar.DaysInMonth` | app.py:56-57 | every month has 28 to 31 days (leap February 29) |
| `Calendar.DayNumberNextDay` | app.py:67 | the next day of a month gets the next day number and the next weekday |
| `Calendar.DayNumberNextMonth` | app.py:67 | the first of a month directly follows the last day of the previous month, one weekday later |
| `Calendar.DayNumberNextYear` | app.py:67 | New Year's day directly follows 31 December, leap years included, and falls one weekday later, so weekdays run on without a gap |
| `Calendar.ParseDate` | app.py:56-57 | `%Y-%m-%d` accepts only ten-character `YYYY-MM-DD` text; its exact inverse is stated by the two lemmas below |
| `Calendar.ParseFormatDate` | app.py:67 | every valid date, written `YYYY-MM-DD`, is read back as its own day number |
| `Calendar.ParseDateOnlyFormatted` | app.py:67 | the date parser accepts only the text of a valid date |
| `Calendar.ParseClock` | app.py:56-57 | `%H:%M` accepts only `HH:MM` text and yields a whole number of minutes after midnight |
| `Calendar.ParseClockSeconds` | app.py:121-122 | `%H:%M:%S` accepts only `HH:MM:SS` text |
| `Calendar.ParseFormatClock` | app.py:56-57 | every `HH:MM` time is read back by `%H:%M` as its seconds after midnight |
| `Calendar.ParseClockOnlyFormatted` | app.py:124-125 | `%H:%M` accepts only the text of an hour and a minute |
| `Calendar.ParseFormatClockSeconds` | app.py:121-122 | every `HH:MM:SS` time is read back by `%H:%M:%S` |
| `Calendar.ParseClockSecondsOnlyFormatted` | app.py:121-122 | `%H:%M:%S` accepts only the text of an hour, a minute and a second |
| `Calendar.ClockFormatsDisjoint` | app.py:120-125 | no text is read by both clock formats |
| `Booking.CheckSlot` | app.py:60-73 | acceptance holds exactly when the booking is bookable: not in the past, not inverted, not on a Sunday, inside 09:00–17:00. Every accepted interval is the slot's own and admissible |
| `Booking.ParseSlot` | app.py:56-57 | the date is read by `%Y-%m-%d`. The add handler reads both times with `%H:%M` and succeeds exactly when all three parse. The update handler's attempt (app.py:120-125) succeeds exactly when both times read with `%H:%M:%S` or both read with `%H:%M`, and the slot holds the values read |
| `Booking.Validate` | app.py:53-73 | blank fields are rejected first. Unreadable text is rejected next. Otherwise the verdict is `CheckSlot`'s on the parsed slot, so the first failing rule decides the 406 message. Acceptance holds exactly when the parsed slot is bookable. An accepted interval is the parsed slot's own start and end, admissible and not in the past |
| `Booking.BlankDecidesAlone` | app.py:53-54 | with a blank field the verdict does not depend on any other input |
| `Booking.PastAndInvertedShareRejection` | app.py:61-64 | the past rejection is given exactly when the start is before now or the interval is inverted, so `now == start` and `start == end` each pass that step |
| `Booking.SundayAlwaysRejected` | app.py:67-68 | a Sunday is refused at every time of day. Its reason is the closed day once the earlier checks pass |
| `Booking.BusinessHours` | app.py:71-73 | after the earlier checks, the booking is accepted exactly when `day@09:00 <= start && end <= day@17:00`. Otherwise the reason is outside hours |
| `Booking.UpdateReadsWhatAddReads` | app.py:120-125 | whatever the add handler parses, the update handler parses to the same slot |
| `Booking.SecondsOnlyOnUpdate` | app.py:121-122 | times with seconds are read by the update handler and refused by the add handler |
| `Booking.MixedTimeFormatsUnreadable` | app.py:120-125 | one time with seconds and one without, in either order, is read by neither of update's two attempts |
| `Booking.WellFormedRequestAccepted` | app.py:53-73 | a future Monday-to-Saturday request with 09:00 <= from <= to <= 17:00 is accepted with exactly its interval |
| `Booking.Intersects` | app.py:81 | the rule `a < d && c < b`: two empty intervals never intersect, and an empty interval at instant `t` intersects exactly the intervals with `c < t < d` |
| `Booking.IntersectsIffSharedInstant` | app.py:80-81 | for non-empty intervals the intersection rule holds exactly when the two intervals share an instant |
| `Booking.IntersectsSymmetric` | app.py:81 | the intersection rule is symmetric |
| `Booking.AdjacentNeverIntersect` | app.py:81 | back-to-back intervals never intersect |
| `Booking.InsertKeepsNoOverlap` | app.py:77-99 | adding a row under a fresh id that intersects no existing row keeps the table free of overlaps |
| `Booking.OverwriteKeepsNoOverlap` | app.py:146-161 | overwriting a row with an interval that intersects no other row keeps the table free of overlaps |
| `Booking.OwnIntervalNeverConflicts` | app.py:152-154 | in a table without overlaps, a row's own interval never conflicts once its id is skipped |
| `Scheduling.StatusOf` | app.py:53-213 | every status lies in 200..599. It is below 300 exactly for the success categories, and it is 500 exactly for unreadable text |
| `Scheduling.InsertInOrder` | app.py:184 | inserting a row into a start-ordered listing keeps the order and adds exactly that row |
| `Scheduling.ListWindow` | app.py:175-181 | the window is unreadable exactly when a non-blank bound does not parse. It runs from 09:00 on the first day to 17:00 on the last, a blank bound meaning the date of the clock reading itself |
| `Scheduling.LastMicrosecondOfDay` | app.py:176-178 | in the last microsecond of a day the past test compares with the next whole second, while a listing with blank bounds still covers that day's 09:00–17:00 |
| `Scheduling.BlankBoundsMeanToday` | app.py:175-181 | blank bounds give a window that holds only instants between 09:00 and 17:00 of the day the clock reading falls on |
| `Scheduling.Store.Valid` | app.py:218-225 | the store invariant: ids below the counter and keyed by their rows, rows admissible, no two rows intersecting. Under it, the next id to issue is unused |
| `Scheduling.Store.constructor` | app.py:218-225 | a new table is empty, satisfies the store invariant, and issues id 1 first |
| `Scheduling.Store.FindConflict` | app.py:77-82 | the scan returns no row exactly when no row other than the excluded id intersects. Otherwise it returns an intersecting row with no lower-numbered conflicting row |
| `Scheduling.Store.Add` | app.py:48-101 | the validator's verdict is taken with the reading rounded up to a whole second. A rejection (406 or 500) or a conflict (409) leaves the table and the counter unchanged. A success (201) adds exactly one row, under a fresh id with the submitted fields, and increments the counter |
| `Scheduling.Store.Update` | app.py:107-166 | a missing id gives 404 and no change. The verdict is taken as in Add. A rejection or a conflict with another row changes nothing. A success (202) overwrites exactly that row's five fields |
| `Scheduling.Store.Select` | app.py:182-184 | the query returns exactly the rows whose start lies in `[lo, hi]`, ascending by start, each as stored |
| `Scheduling.Store.List` | app.py:172-186 | the listing holds exactly the rows whose start lies in `[from@09:00, to@17:00]`, a blank bound meaning the date of the clock reading, ascending by start. An unreadable bound gives 500 |
| `Scheduling.Store.Get` | app.py:192-199 | an existing id gives 200 with its row. A missing id gives 404 and no row |
| `Scheduling.Store.Delete` | app.py:206-213 | an existing id is removed and nothing else changes (202). A missing id gives 404 and no change |
| `Scenarios.FirstBookingAdded` | app.py:90-101 | on a working day, the first booking in an empty store gets (201, Added) and becomes row 1 with the submitted interval |
| `Scenarios.OverlapRefused` | app.py:77-82 | a booking for 09:30–10:30 against a stored 09:00–10:00 gets (409, Conflict) and leaves the table and the counter unchanged |
| `Scenarios.BackToBackAdded` | app.py:77-101 | a booking for 10:00–11:00 after a stored 09:00–10:00 gets (201, Added) and is added as row 2 with that interval. Row 1 is unchanged and the counter becomes 3 |
| `Scenarios.AdjacentBookings` | app.py:206-213 | on Tuesday 2024-01-02, after the three bookings, deleting row 1 gives 202 and deleting it again gives 404 |

## Left out

- HTTP plumbing is not modelled: Flask routing, the `/` route, CORS, and reading `request.json`. A missing JSON key raises `KeyError` in the code. The handlers here take the parsed fields.
- Persistence is not modelled. The SQLAlchemy session and the SQLite file are replaced by the in-memory map of `Store`. SQLite assigns `max(id) + 1`, so it can reuse the id of a deleted last row. The model's counter never reuses an id.
- The Marshmallow schema, JSON serialisation and the CLI commands `db_create`, `db_drop` and `db_seed` are not modelled. They do no booking logic.
- `print` calls are not modelled.
- The clock is not modelled: `datetime.now()` is the parameter `clock`, a reading in microseconds.
- Scheduling.Store.List: reads the clock once. The source reads it separately for each blank bound (app.py:176, 178), so a listing requested across midnight with both bounds blank can span two days there but never here.
- The parsers are strict fixed-width ASCII. `strptime` also accepts single-digit months, days, hours and minutes (`2024-1-2`, `9:00`), a space-padded day (`2024-01- 2`), and any Unicode decimal digit, since its patterns use `\d` (fullwidth `２０２４-０１-０２`). The model rejects all of these as unparseable.
- The source parses the concatenation `date + separator + time`. The model parses the date and the times separately. So a request that splits a valid timestamp oddly between the fields is unparseable here.
- `DateTimeRange.is_intersection` is library code that is not part of this model. The model uses the half-open rule `a < d && c < b`, which is the stated intent. Some versions of that library treat touching endpoints as intersecting.
- Booking.IntersectsIffSharedInstant: is stated for non-empty intervals only. Under the rule, an empty interval (`start == end`, which the validator accepts) still intersects an interval that strictly contains its instant.
- Concurrency is not modelled. The check-then-write race needs concurrent writers, and the model is sequential.
- `first_name` and `last_name` are not validated, because the code does not validate them.
- The source leaves the order of listed rows with equal starts unspecified. The model orders them by ascending id.
