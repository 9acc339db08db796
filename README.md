# Seat reservation system — a verified model of its core

The system lets interns reserve office seats for a date and an hour slot,
lets an admin assign interns to seats, and gives the admin a per-seat usage
report. This project models, in Dafny:

- the reservation handlers of the backend (`POST /book`, `POST /assign`,
  `DELETE /:id` to cancel, `PUT /:id` to modify) as a class
  `ReservationStore` over a sequence of reservation records, each handler a
  method proved to reach exactly the verdict and new state of a pure
  function, and the store invariant "at most one record per seat, date and
  `timeSlot`" preserved by every handler (`reservations.dfy`);
- the seat routes: the read-only slot projections `GET /available` and
  `GET /status`, and the admin-only create, update and delete of seats on a
  class `SeatInventory` (`seats.dfy`);
- the admin-only `/seat-usage` report: group by seat, look up the seat,
  drop groups whose seat is gone, project, and sort by total descending
  (`reports.dfy`);
- registration, login and the intern list (`auth.dfy`), with the registry
  as a class `UserRegistry`;
- the client's reservation list: the expiry test, the status badge and the
  intern's buttons, compared with the backend's cancel rule
  (`reservationlist.dfy`);
- the JavaScript pieces those rely on: `parseInt` of the stored `timeSlot`
  string, `endsWith`, `toLowerCase` (`jstext.dfy`), and the clock
  (`clock.dfy`: days, hours, `setHours` with roll-over and the Date range).

The model follows the code as written. In particular:

- None of the conflict lookups filters by status, so a cancelled reservation
  keeps blocking its seat and slot, for everyone and for its owner
  (`CancelledStillBlocks`). One might expect a cancelled reservation to
  free its slot; the code does not.
- Slots are compared as `timeSlot` strings. `"9"` and `"09"` are the same
  hour for the time rule but different slots for the conflict lookups
  (`TwoSpellingsOfOneHour`).
- The time rule refuses a date whose midnight is before now, so once a day
  has begun nothing can be booked for it, not even a later hour
  (`SameDaySlotsRejected`). It does not look at the sign of the hour
  (`NegativeHourAccepted`). No minimum lead time exists beyond this rule.
- The whole-day exclusivity rule runs only in assign; a booking after an
  assignment on the same day, at another hour, succeeds
  (`AssignedInternCanBookSameDay`), although an assignment suggests a
  whole day at one seat.
- Cancel does not look at the status, so cancelling a cancelled future
  reservation succeeds again and leaves the same record
  (`CancelIdempotent`), where one might expect a refusal.
- `setHours` turns a time more than 100,000,000 days from the epoch into an
  Invalid Date, which compares false. A slot such as `"-5000000000"` on
  tomorrow's date is accepted by book, never counts as elapsed, and can be
  cancelled; the client never shows it as expired (`OutOfRangeSlotCancels`,
  `OutOfRangeSlotOffersCancel`).
- Modify checks only the seat, not the owner's other reservations or the
  record's status (`ModifyCanDoubleBookIntern`, `ModifyIgnoresStatus`).
- The report fixes no order among rows with equal totals; the model's sort
  is stable over groups taken in order of first appearance. Nothing orders
  tied rows by seat id.

Time is one time zone, in milliseconds: a date is a day number, `new
Date(date)` its first instant, `now` an instant passed in as a parameter.
The caller's id and role are parameters too. A reservation's id is its
position in the store (records are never removed); seat and user ids come
from a counter.

## Model

| member | source | states |
|---|---|---|
| `JsText.DecimalString` | backend/routes/reservations.js:32 | the string a numeric hour becomes when stored as a `timeSlot`: decimal digits, no leading zero |
| `JsText.ParseIntDecimal` | backend/routes/reservations.js:32 | `parseInt` of the decimal rendering of an hour gives that hour back |
| `JsText.ParseIntPadded` | backend/routes/reservations.js:89 | a zero-padded hour such as `"09"` still reads as that hour |
| `JsText.ToLower` | backend/routes/auth.js:33 | lower-casing keeps the length and maps each Latin capital to its small letter, other characters unchanged |
| `Clock.StartOfDay` | backend/routes/reservations.js:31 | `new Date(date)` is the first instant of the day |
| `Clock.DayOf` | backend/routes/reservations.js:32 | `toDateString` equality is equality of the calendar day an instant falls on |
| `Clock.HourOf` | backend/routes/reservations.js:32 | `now.getHours()` is the whole hours since the start of the day |
| `Clock.AtHour` | backend/routes/reservations.js:92 | `setHours(h, 0, 0, 0)` is the day's first instant plus h hours, rolling over into neighbouring days |
| `Clock.InDateRange` | backend/routes/reservations.js:92-94 | a time value within 8.64e15 ms of the epoch is a valid Date; any other is an Invalid Date |
| `JsText.EndsWith` | backend/routes/auth.js:14-33 | `endsWith`: the string's last characters are the suffix |
| `JsText.ParseInt` | backend/routes/reservations.js:32 | `parseInt` without a radix: leading white space, an optional sign, a `0x` prefix or decimal digits, trailing text ignored, no digit gives NaN |
| `Reservations.TimeRejected` | backend/routes/reservations.js:29-35 | the time rule: the day's first instant is before now, or the day is today and the hour is not after the current hour |
| `Reservations.Elapsed` | backend/routes/reservations.js:87-94 | the cancel test: the day with its hour set is a valid Date at or before now |
| `Reservations.BookVerdict` | backend/routes/reservations.js:12-41 | book's outcome: own slot taken, then seat taken, then time rule, otherwise done |
| `Reservations.AssignVerdict` | backend/routes/reservations.js:45-73 | assign's outcome: not admin, then seat taken, then the intern's day taken, then time rule, otherwise done |
| `Reservations.CancelVerdict` | backend/routes/reservations.js:76-102 | cancel's outcome: no such record, then not the owning intern, then elapsed, otherwise done |
| `Reservations.ModifyVerdict` | backend/routes/reservations.js:115-138 | modify's outcome: no such record, then not the owner, then time rule, then the seat held by another record, otherwise done |
| `Reservations.Moved` | backend/routes/reservations.js:132-134 | a modified record has the new date, slot and seat, and keeps owner and status |
| `Reservations.OutOfRangeHourNeverElapses` | backend/routes/reservations.js:87-94 | an hour far enough below zero puts the slot long in the past, yet out of the Date range, so it never counts as elapsed |
| `Reservations.OutOfRangeSlotCancels` | backend/routes/reservations.js:76-102 | the owning intern cancels such a slot successfully |
| `Reservations.Matches` | backend/routes/reservations.js:17-55 | a record matches a filter when it agrees on the date and on every other field the filter gives |
| `Reservations.SeatSlot` | backend/routes/reservations.js:23 | the `{ seat, date, timeSlot }` filter of book, assign and modify |
| `Reservations.InternSlot` | backend/routes/reservations.js:17 | the `{ intern, date, timeSlot }` filter of book |
| `Reservations.InternDay` | backend/routes/reservations.js:55 | the `{ intern, date }` filter of assign: any hour of that day |
| `Reservations.FirstMatch` | backend/routes/reservations.js:17 | `findOne` yields the first record matching the filter, none iff no record matches |
| `Reservations.PastSlotRejected` | backend/routes/reservations.js:29-35 | a slot with a non-negative hour whose start is at or before now is refused as an invalid time |
| `Reservations.AcceptedSlotIsFuture` | backend/routes/reservations.js:29-35 | a slot with a non-negative hour that passes the time rule starts strictly after now |
| `Reservations.SameDaySlotsRejected` | backend/routes/reservations.js:31 | after midnight every slot of the current day is refused, whatever its hour |
| `Reservations.FutureDayAccepted` | backend/routes/reservations.js:29-35 | every slot of a day after today passes the time rule, whatever its hour |
| `Reservations.DoneMeansTimeAccepted` | backend/routes/reservations.js:29-61 | book and assign succeed only for slots that pass the time rule |
| `Reservations.NegativeHourAccepted` | backend/routes/reservations.js:29-35 | a negative hour on tomorrow's date passes the rule although that instant has passed |
| `Reservations.ModifyConflictMeansOther` | backend/routes/reservations.js:127-130 | under the invariant, modify's "found record is not this one" test holds iff another record holds the new slot |
| `Reservations.BookKeepsSlotsUnique` | backend/routes/reservations.js:23-39 | a successful book keeps at most one record per seat, date and slot |
| `Reservations.AssignKeepsSlotsUnique` | backend/routes/reservations.js:51-71 | a successful assign keeps at most one record per seat, date and slot |
| `Reservations.ModifyKeepsSlotsUnique` | backend/routes/reservations.js:127-134 | a successful modify keeps at most one record per seat, date and slot |
| `Reservations.CancelKeepsSlotsUnique` | backend/routes/reservations.js:98 | cancelling keeps at most one record per seat, date and slot |
| `Reservations.CancelledStillBlocks` | backend/routes/reservations.js:17-26 | a cancelled record makes book refuse its seat and slot (its owner with the own-slot refusal) and makes assign refuse it |
| `Reservations.BookConflictBeforeTime` | backend/routes/reservations.js:17-35 | a held seat is reported as a conflict before the time rule is consulted |
| `Reservations.AcceptedRequestIsFuture` | backend/routes/reservations.js:29-61 | a successful book or assign with a non-negative hour is for a slot starting after now |
| `Reservations.AssignBlockedByAnyRecordThatDay` | backend/routes/reservations.js:55-56 | any record of the intern that day, any hour and status, makes assign refuse |
| `Reservations.AssignedInternCanBookSameDay` | backend/routes/reservations.js:17-35 | an intern assigned at 9 can still book another seat at 10 the same day |
| `Reservations.AdminCannotCancel` | backend/routes/reservations.js:82-84 | an admin's cancel is refused as not found or forbidden |
| `Reservations.CancelIdempotent` | backend/routes/reservations.js:76-102 | after a successful cancel, cancelling again succeeds and changes nothing |
| `Reservations.UnchangedModifySucceeds` | backend/routes/reservations.js:127-130 | modifying a reservation onto its own seat and slot succeeds when that slot passes the time rule |
| `Reservations.FirstMatchIgnoresStatus` | backend/routes/reservations.js:127 | rewriting a record's status changes no lookup result |
| `Reservations.ModifyIgnoresStatus` | backend/routes/reservations.js:115-138 | modify reaches the same verdict whatever the record's status |
| `Reservations.ModifyCanDoubleBookIntern` | backend/routes/reservations.js:115-138 | modify can leave one intern with two records in the same slot |
| `Reservations.TwoSpellingsOfOneHour` | backend/routes/reservations.js:23-35 | `"0"+h` reads as hour h but does not clash with a record at `h`, so a second intern books the same seat and hour |
| `Reservations.ReservationStore.FindOne` | backend/routes/reservations.js:17 | the scan returns the first matching record, none iff no record matches |
| `Reservations.ReservationStore.Book` | backend/routes/reservations.js:12-41 | checks own slot, seat, time in that order; on success appends one active record of the caller and changes nothing else; keeps the invariant |
| `Reservations.ReservationStore.Assign` | backend/routes/reservations.js:45-73 | checks admin role, seat, the intern's day, time; on success appends one assigned record; keeps the invariant |
| `Reservations.ReservationStore.Cancel` | backend/routes/reservations.js:76-102 | not found, then owning intern, then elapsed (a slot outside the Date range never is); on success only that record's status becomes cancelled |
| `Reservations.ReservationStore.Modify` | backend/routes/reservations.js:115-138 | not found, owner, time, seat held by another record; on success only date, slot and seat of that record change |
| `Seats.SlotGiven` | backend/routes/seats.js:59 | the query passes the parameter test when it has a date and a non-empty slot; otherwise `/available` and `/status` (line 83) answer 400 |
| `Seats.FreeSeats` | backend/routes/seats.js:65-71 | a seat is listed iff it is in the seat list and no reservation of any status holds it in the slot |
| `Seats.AvailableSeats` | backend/routes/seats.js:56-77 | missing date or slot is an error; otherwise exactly the free seats |
| `Seats.StateOf` | backend/routes/seats.js:89-99 | available iff no reservation holds the seat in the slot; reserved-by-me only with a record of the caller; unavailable only with a record of someone else |
| `Seats.SeatStates` | backend/routes/seats.js:89-105 | one entry per seat, in seat order, the seat's fields with the computed status |
| `Seats.StatusView` | backend/routes/seats.js:81-111 | missing date or slot is an error; otherwise the per-seat entries, one per seat in seat order, each with the computed status |
| `Seats.AvailableAgreesWithStatus` | backend/routes/seats.js:65-99 | a seat is in `/available` iff its `/status` entry is available |
| `Seats.ReservedByMeMeansOwnRecord` | backend/routes/seats.js:90-98 | under the store invariant, reserved-by-me iff the caller holds the seat in the slot |
| `Seats.Without` | backend/routes/seats.js:46 | the seat list after `findByIdAndDelete`: every seat but those with the id, in order |
| `Seats.SeatStatusAllowed` | backend/models/Seat.js:6 | the schema enum for a seat's status: `available` or `unavailable` |
| `Seats.WithoutKeepsOthers` | backend/routes/seats.js:46 | removing an id keeps exactly the seats with another id |
| `Seats.CutIsWithout` | backend/routes/seats.js:46 | when no other seat has its id, cutting one seat out of the list is removing its id |
| `Seats.CreatedStatus` | backend/routes/seats.js:27 | a new seat's status is the requested one, or `available` when none is given |
| `Seats.SeatInventory.Find` | backend/routes/seats.js:121 | the scan finds a seat with the id, none iff no seat has it |
| `Seats.SeatInventory.Create` | backend/routes/seats.js:18-36 | admin only; a status outside the enum is refused; on success one seat with a fresh id is appended |
| `Seats.Pick` | backend/routes/seats.js:121-127 | a field the update request gives replaces the stored one; an absent field keeps it |
| `Seats.SeatInventory.Update` | backend/routes/seats.js:115-139 | admin only; missing id is not found; otherwise only that seat changes, fields left out of the request keep their value |
| `Seats.SeatInventory.Delete` | backend/routes/seats.js:39-54 | admin only; missing id is not found; otherwise exactly the seats with that id are removed |
| `Reports.Total` | backend/routes/reports.js:17 | `$sum: 1`: the number of reservations on the seat |
| `Reports.CountStatus` | backend/routes/reports.js:18-20 | the `$cond` sums: the number of reservations on the seat with that status |
| `Reports.Entries` | backend/routes/reports.js:21-27 | `$push`: date, slot and status of each reservation on the seat, in collection order |
| `Reports.GroupRow` | backend/routes/reports.js:39-48 | `$project`: the seat's number and location with the group's counts and entries |
| `Reports.GroupKeys` | backend/routes/reports.js:15-16 | one key per seat some reservation references, each once |
| `Reports.TotalIsStatusSum` | backend/routes/reports.js:17-20 | a group's total is its assigned, active and cancelled counts added |
| `Reports.EntriesCountTotal` | backend/routes/reports.js:21-27 | a group's entry list has one entry per counted reservation |
| `Reports.ReferencedTotalPositive` | backend/routes/reports.js:15-17 | a referenced seat's total is at least one |
| `Reports.RowsForGroup` | backend/routes/reports.js:30-38 | a group yields one row per seat document with its id, none when the seat is gone |
| `Reports.Joined` | backend/routes/reports.js:30-48 | the joined rows are exactly the rows of a group key and an existing seat with that id |
| `Reports.RowsForGroupAtMostOne` | backend/routes/reports.js:30-38 | with distinct seat ids a group yields at most one row |
| `Reports.NoRowsWithoutSeat` | backend/routes/reports.js:38 | a group whose seat is gone yields no row |
| `Reports.JoinedDistinct` | backend/routes/reports.js:15-38 | with distinct seat ids no two joined rows share a seat |
| `Reports.Insert` | backend/routes/reports.js:50 | insertion adds exactly the one row |
| `Reports.InsertKeepsOrder` | backend/routes/reports.js:50 | insertion keeps rows ordered by total, non-increasing |
| `Reports.SortByTotal` | backend/routes/reports.js:50 | the sorted rows are a permutation ordered by total, non-increasing |
| `Reports.PermutationKeepsDistinct` | backend/routes/reports.js:50 | sorting cannot create two rows for one seat |
| `Reports.SeatUsage` | backend/routes/reports.js:7-57 | refused iff the caller is not an admin; otherwise the joined rows, reordered by total, non-increasing |
| `Reports.RowsSound` | backend/routes/reports.js:13-51 | every row belongs to a referenced, existing seat, with its number and location, total at least one, total equal to the three counts added and to the entry count |
| `Reports.RowsComplete` | backend/routes/reports.js:13-51 | every referenced seat that still exists has its row |
| `Reports.RowsOnePerSeat` | backend/routes/reports.js:15-38 | with distinct seat ids no seat has two rows |
| `Reports.UnreferencedSeatHasNoRow` | backend/routes/reports.js:15-16 | a seat no reservation references has no row |
| `Auth.FirstWithEmail` | backend/routes/auth.js:37 | the lookup yields the first user with exactly that e-mail, none iff there is none |
| `Auth.RegisterEmailOk` | backend/routes/auth.js:14 | registration's check: a non-empty e-mail ending in exactly `@slt.com` |
| `Auth.LoginEmailOk` | backend/routes/auth.js:33 | login's check: a non-empty e-mail whose lower-cased form ends in `@slt.com` |
| `Auth.RegisterCheck` | backend/routes/auth.js:14-19 | registration's refusal: no e-mail or not the exact `@slt.com` suffix, then an existing user with that e-mail |
| `Auth.LoginReply` | backend/routes/auth.js:33-53 | login's reply: the case-insensitive suffix check, then the exact-e-mail lookup and password compare, then a token over id and role with name, e-mail and role |
| `Auth.InternViews` | backend/routes/auth.js:68 | the list holds exactly the projections of users with the intern role |
| `Auth.Interns` | backend/routes/auth.js:64-73 | refused iff the caller is not an admin; otherwise the intern projections |
| `Auth.RegisteredEmailPassesLogin` | backend/routes/auth.js:33 | every e-mail registration accepts passes login's domain check |
| `Auth.RegisterThenLogin` | backend/routes/auth.js:10-53 | just after registering, logging in with the same e-mail and password yields a token over the new id and the intern role, given that a password matches its own hash |
| `Auth.UpperCaseDomainSplitsChecks` | backend/routes/auth.js:14-33 | `a@SLT.COM` passes login's domain check but not registration's |
| `Auth.UpperCaseDomainCannotLogIn` | backend/routes/auth.js:33-40 | with every stored e-mail in lower-case domain, a login with `@SLT.COM` is refused |
| `Auth.UserRegistry.FindByEmail` | backend/routes/auth.js:18 | the scan finds the first user with exactly that e-mail |
| `Auth.UserRegistry.Register` | backend/routes/auth.js:10-26 | bad domain, then existing e-mail are refused; on success one intern with the hashed password and a fresh id is appended; e-mails stay unique |
| `Auth.UserRegistry.Login` | backend/routes/auth.js:29-54 | the domain check, the exact-e-mail lookup and the password check, in that order; on success a token over id and role with name, e-mail and role |
| `ReservationList.IsExpired` | seat-reservation-frontend/src/components/Reservations.js:333-335 | a row is expired when its day with the hour set is a valid Date strictly before now |
| `ReservationList.StatusBadge` | seat-reservation-frontend/src/components/Reservations.js:258-280 | Expired first, then Cancelled for a cancelled record, otherwise Active |
| `ReservationList.RowActions` | seat-reservation-frontend/src/components/Reservations.js:405-442 | admins get no buttons; an intern gets one disabled button on an expired or cancelled row, otherwise Cancel and Modify |
| `ReservationList.ButtonsFollowBadge` | seat-reservation-frontend/src/components/Reservations.js:405-442 | an intern gets Cancel and Modify iff the badge is Active, otherwise one disabled button reading the badge; an admin gets none |
| `ReservationList.ExpiryAgainstBackend` | seat-reservation-frontend/src/components/Reservations.js:333-335 | expired in the client implies elapsed in the backend; they differ exactly when the slot starts at now |
| `ReservationList.OfferedCancelRefusedOnlyAtStart` | seat-reservation-frontend/src/components/Reservations.js:335 | a Cancel the client offers on the intern's own row is refused by the backend iff the slot starts exactly now |
| `ReservationList.AcceptedCancelIsOffered` | seat-reservation-frontend/src/components/Reservations.js:405-442 | every cancel the backend accepts on a row not yet cancelled is offered by the client |
| `ReservationList.OutOfRangeSlotOffersCancel` | seat-reservation-frontend/src/components/Reservations.js:333-442 | a slot whose hour lies out of the Date range never shows as expired and keeps its Cancel button, as the backend lets it be cancelled |
| `ReservationList.AssignedShowsActive` | seat-reservation-frontend/src/components/Reservations.js:258-280 | an assigned reservation that has not expired shows as Active with live buttons |

## Left out

- HTTP: routing, status codes and message bodies become result variants; `backend/middleware/auth.js` (token check) becomes the caller parameter.
- `GET /my`, `GET /` of seats and `POST /logout`: plain reads or no-ops with no rule to state.
- `GET /all`: admin-only (403 otherwise), then a plain read whose sort depends on the database's string collation.
- Mongoose: ObjectId casting: a malformed id makes the seat update answer 400, and makes the reservation handlers, which catch nothing, end in an unhandled rejection whose response depends on the Express version; `populate`, and schema validation other than the seat status enum on create; reservation statuses are always set by the handlers and so always in the enum.
- Request fields that are absent (`undefined` date, slot, seat or password) other than the query parameters of `/available` and `/status`; a field sent as `null` to the seat update.
- Concurrency: every handler is one atomic step; the windows between a lookup and its write, across awaits, are not modelled.
- Dates: parsing of date strings and time zones; a date is a day number and client and server share one clock. A request date that does not cast to a valid Date makes the first lookup throw; the model takes every date as a valid day.
- bcrypt and JWT: hashing, comparison and signing are function parameters; salt randomness and token expiry are not modelled.
- `JsText.ParseInt`: exact for every string of digits, but does not model the precision loss of numbers above 2^53 or `parseInt` on non-string values.
- `JsText.ToLower`: maps only the Latin capitals A to Z; other Unicode case mappings are not modelled.
- `Reports.SortByTotal`: the order of rows with equal totals is one the database may produce, not the only one.
- `Seats.SeatInventory.Update`: keeps a field the request leaves out and runs no enum check, as the database update does; a `null` field is not modelled.
- The remaining client components, the PDF report and server start-up: presentation and wiring only.
