/** The reservation engine of `backend/routes/reservations.js`: the `book`,
    `assign`, cancel (`DELETE /:id`) and modify (`PUT /:id`) handlers over
    the one collection of reservation records.

    Each handler is a fixed chain of guards followed by one insert or one
    in-place field update. The guards are stated here as pure verdict
    functions over the collection; `ReservationStore` runs the handlers
    step by step, looking records up with `FindOne`, and is proved to reach
    exactly those verdicts and state changes.

    A reservation's id is its position in the collection: records are never
    removed, cancelling only rewrites `status`. None of the lookups filters
    by status, so a cancelled record keeps occupying its seat and slot. */
module Reservations {
  import opened Base
  import opened Clock
  import opened JsText

  /** The `status` enum of the reservation schema; new records default to `Active`. */
  datatype Status = Active | Cancelled | Assigned

  /** One reservation document. `timeSlot` is stored as a string and read
      through `parseInt` wherever it is compared with a clock. */
  datatype Reservation = Reservation(intern: UserId, seat: SeatId, date: Day, timeSlot: string, status: Status)

  /** A `findOne`/`find` filter: the date is always given, the other fields
      only when `Some`. */
  datatype Query = Query(intern: Option<UserId>, seat: Option<SeatId>, date: Day, timeSlot: Option<string>)

  predicate Matches(r: Reservation, q: Query)
  {
    && (q.intern.Some? ==> r.intern == q.intern.value)
    && (q.seat.Some? ==> r.seat == q.seat.value)
    && r.date == q.date
    && (q.timeSlot.Some? ==> r.timeSlot == q.timeSlot.value)
  }

  /** `{ seat, date, timeSlot }`: who holds this seat in this slot. */
  function SeatSlot(seat: SeatId, date: Day, timeSlot: string): Query
  {
    Query(None, Some(seat), date, Some(timeSlot))
  }

  /** `{ intern, date, timeSlot }`: does this intern already hold this slot. */
  function InternSlot(intern: UserId, date: Day, timeSlot: string): Query
  {
    Query(Some(intern), None, date, Some(timeSlot))
  }

  /** `{ intern, date }`: does this intern hold anything that day. */
  function InternDay(intern: UserId, date: Day): Query
  {
    Query(Some(intern), None, date, None)
  }

  predicate AnyMatch(db: seq<Reservation>, q: Query)
  {
    exists i :: 0 <= i < |db| && Matches(db[i], q)
  }

  /** The record `findOne` returns: the first match in insertion order. */
  function FirstMatch(db: seq<Reservation>, q: Query): (r: Option<nat>)
    ensures r.Some? ==> r.value < |db| && Matches(db[r.value], q)
    ensures r.Some? ==> forall k :: 0 <= k < r.value ==> !Matches(db[k], q)
    ensures r.None? <==> !AnyMatch(db, q)
  {
    if db == [] then None
    else if Matches(db[0], q) then Some(0)
    else
      match FirstMatch(db[1..], q)
      case None => None
      case Some(k) => Some(k + 1)
  }

  // ---------------------------------------------------------------------
  // Time rules

  /** The validity test shared by book, assign and modify: a request is
      refused when the start of its day is already past, or when it is for
      today and its hour is not after the current hour. A `timeSlot` that
      `parseInt` cannot read makes the second comparison false. */
  predicate TimeRejected(date: Day, timeSlot: string, now: Instant)
  {
    || StartOfDay(date) < now
    || (DayOf(StartOfDay(date)) == DayOf(now) &&
        match ParseInt(timeSlot)
        case Some(h) => h <= HourOf(now)
        case None => false)
  }

  /** The cancel test: the reservation's date with its hour set is at or
      before now. An unreadable `timeSlot`, or an hour that moves the time
      out of the Date range, makes an invalid Date, which compares false, so
      such a record never counts as elapsed. */
  predicate Elapsed(r: Reservation, now: Instant)
  {
    match ParseInt(r.timeSlot)
    case Some(h) => InDateRange(AtHour(r.date, h)) && AtHour(r.date, h) <= now
    case None => false
  }

  /** A slot whose start is already at or before now is refused. */
  lemma PastSlotRejected(date: Day, timeSlot: string, now: Instant, h: int)
    requires ParseInt(timeSlot) == Some(h) && 0 <= h
    requires AtHour(date, h) <= now
    ensures TimeRejected(date, timeSlot, now)
  {
    InstantBounds(now);
    DayOfStart(date);
    if StartOfDay(date) >= now {
      assert h * MsPerHour <= 0;
      assert now == StartOfDay(date);
    }
  }

  /** A slot that passes the rule and has a non-negative hour starts strictly after now. */
  lemma AcceptedSlotIsFuture(date: Day, timeSlot: string, now: Instant, h: int)
    requires ParseInt(timeSlot) == Some(h) && 0 <= h
    requires !TimeRejected(date, timeSlot, now)
    ensures AtHour(date, h) > now
  {
    InstantBounds(now);
    DayOfStart(date);
    if StartOfDay(date) == now {
      assert HourOf(now) == 0;
    }
  }

  /** The first disjunct already covers every slot of today once today has
      begun: from one millisecond past midnight on, nothing can be booked for
      the current day, not even a later hour. */
  lemma SameDaySlotsRejected(date: Day, timeSlot: string, now: Instant)
    requires DayOf(now) == date && now != StartOfDay(date)
    ensures TimeRejected(date, timeSlot, now)
  {
    InstantBounds(now);
  }

  /** Any slot on a later day than today passes the rule. */
  lemma FutureDayAccepted(date: Day, timeSlot: string, now: Instant)
    requires date > DayOf(now)
    ensures !TimeRejected(date, timeSlot, now)
  {
    InstantBounds(now);
    DayOfStart(date);
    StartOfDayMonotone(DayOf(now) + 1, date);
  }

  /** The rule does not look at the hour's sign: on tomorrow's date, an
      hour of `"-24"` or lower passes although that slot has already begun. */
  lemma NegativeHourAccepted(now: Instant, n: nat)
    requires n >= 24
    ensures ParseInt("-" + DecimalString(n)) == Some(-(n as int))
    ensures !TimeRejected(DayOf(now) + 1, "-" + DecimalString(n), now)
    ensures AtHour(DayOf(now) + 1, -(n as int)) <= now
  {
    MagnitudeOfNumeral(DecimalString(n));
    DecimalValue(n);
    ParseIntOfNegative(DecimalString(n), n);
    InstantBounds(now);
    DayOfStart(DayOf(now) + 1);
  }

  /** An hour far enough below zero moves the slot out of the Date range:
      the slot began long ago, yet the record never counts as elapsed. */
  lemma OutOfRangeHourNeverElapses(r: Reservation, now: Instant, n: nat)
    requires 0 <= now <= MaxTime
    requires r.date == DayOf(now) + 1 && r.timeSlot == "-" + DecimalString(n)
    requires n >= 5_000_000_000
    ensures AtHour(r.date, -(n as int)) < now
    ensures !Elapsed(r, now)
  {
    MagnitudeOfNumeral(DecimalString(n));
    DecimalValue(n);
    ParseIntOfNegative(DecimalString(n), n);
    InstantBounds(now);
    assert !InDateRange(AtHour(r.date, -(n as int)));
  }

  // ---------------------------------------------------------------------
  // Verdicts of the four handlers

  datatype Refusal =
    | NotFound              // 404 "Reservation not found"
    | Forbidden             // 403
    | SlotAlreadyYours      // 400 "You already have a reservation at this date and time"
    | SeatAlreadyReserved   // 400 "Seat already reserved ..."
    | InternBusyThatDay     // 400 "Intern already has a reservation for this day"
    | InvalidTime           // 400 "Invalid reservation time" / "Invalid time"
    | AlreadyElapsed        // 400 "Cannot cancel past or ongoing reservations"

  datatype Outcome = Done | Refused(why: Refusal)

  /** POST /book: own slot, then seat, then time. */
  function BookVerdict(db: seq<Reservation>, caller: Caller, seat: SeatId, date: Day, timeSlot: string, now: Instant): Outcome
  {
    if AnyMatch(db, InternSlot(caller.id, date, timeSlot)) then Refused(SlotAlreadyYours)
    else if AnyMatch(db, SeatSlot(seat, date, timeSlot)) then Refused(SeatAlreadyReserved)
    else if TimeRejected(date, timeSlot, now) then Refused(InvalidTime)
    else Done
  }

  /** POST /assign: role, then seat, then the intern's whole day, then time. */
  function AssignVerdict(db: seq<Reservation>, caller: Caller, intern: UserId, seat: SeatId, date: Day, timeSlot: string, now: Instant): Outcome
  {
    if caller.role != Admin then Refused(Forbidden)
    else if AnyMatch(db, SeatSlot(seat, date, timeSlot)) then Refused(SeatAlreadyReserved)
    else if AnyMatch(db, InternDay(intern, date)) then Refused(InternBusyThatDay)
    else if TimeRejected(date, timeSlot, now) then Refused(InvalidTime)
    else Done
  }

  /** DELETE /:id: existence, then "an intern who owns it", then elapsed. */
  function CancelVerdict(db: seq<Reservation>, caller: Caller, id: nat, now: Instant): Outcome
  {
    if id >= |db| then Refused(NotFound)
    else if caller.role != Intern || db[id].intern != caller.id then Refused(Forbidden)
    else if Elapsed(db[id], now) then Refused(AlreadyElapsed)
    else Done
  }

  /** PUT /:id: existence, ownership (any role), time of the new slot, then
      the seat lookup, which is ignored when it finds the record itself. */
  function ModifyVerdict(db: seq<Reservation>, caller: Caller, id: nat, date: Day, timeSlot: string, seat: SeatId, now: Instant): Outcome
  {
    if id >= |db| then Refused(NotFound)
    else if db[id].intern != caller.id then Refused(Forbidden)
    else if TimeRejected(date, timeSlot, now) then Refused(InvalidTime)
    else
      match FirstMatch(db, SeatSlot(seat, date, timeSlot))
      case Some(j) => if j != id then Refused(SeatAlreadyReserved) else Done
      case None => Done
  }

  /** The record a successful modify leaves: date, slot and seat rewritten,
      owner and status kept. */
  function Moved(r: Reservation, date: Day, timeSlot: string, seat: SeatId): Reservation
  {
    r.(date := date, timeSlot := timeSlot, seat := seat)
  }

  // ---------------------------------------------------------------------
  // The store invariant: one record per (seat, date, timeSlot)

  predicate SameSlot(a: Reservation, b: Reservation)
  {
    a.seat == b.seat && a.date == b.date && a.timeSlot == b.timeSlot
  }

  /** At most one record, whatever its status, per seat, date and `timeSlot` string. */
  ghost predicate SlotsUnique(db: seq<Reservation>)
  {
    forall i, j :: 0 <= i < j < |db| ==> !SameSlot(db[i], db[j])
  }

  /** Under the invariant, two records holding the same slot are one record. */
  lemma OneHolderPerSlot(db: seq<Reservation>, i: nat, j: nat)
    requires SlotsUnique(db) && i < |db| && j < |db|
    requires SameSlot(db[i], db[j])
    ensures i == j
  {
  }

  /** Appending a record whose slot nobody holds keeps slots unique. */
  lemma AppendFreeSlot(db: seq<Reservation>, r: Reservation)
    requires SlotsUnique(db)
    requires !AnyMatch(db, SeatSlot(r.seat, r.date, r.timeSlot))
    ensures SlotsUnique(db + [r])
  {
    var db' := db + [r];
    forall i, j | 0 <= i < j < |db'| ensures !SameSlot(db'[i], db'[j]) {
      if j == |db| {
        assert !Matches(db[i], SeatSlot(r.seat, r.date, r.timeSlot));
      } else {
        assert db'[i] == db[i] && db'[j] == db[j];
      }
    }
  }

  /** Rewriting one record onto a slot no other record holds keeps slots unique. */
  lemma RewriteFreeSlot(db: seq<Reservation>, id: nat, r: Reservation)
    requires SlotsUnique(db) && id < |db|
    requires forall j :: 0 <= j < |db| && j != id ==> !SameSlot(db[j], r)
    ensures SlotsUnique(db[id := r])
  {
    var db' := db[id := r];
    forall i, j | 0 <= i < j < |db'| ensures !SameSlot(db'[i], db'[j]) {
      if i == id {
        assert !SameSlot(db[j], r);
      } else if j == id {
        assert !SameSlot(db[i], r);
      } else {
        assert db'[i] == db[i] && db'[j] == db[j];
      }
    }
  }

  /** Under the invariant, modify's "found record is not this one" test is
      exactly "some other record holds the new slot". */
  lemma ModifyConflictMeansOther(db: seq<Reservation>, id: nat, seat: SeatId, date: Day, timeSlot: string)
    requires SlotsUnique(db) && id < |db|
    ensures (FirstMatch(db, SeatSlot(seat, date, timeSlot)).Some? && FirstMatch(db, SeatSlot(seat, date, timeSlot)).value != id)
        <==> (exists j :: 0 <= j < |db| && j != id && Matches(db[j], SeatSlot(seat, date, timeSlot)))
  {
    var q := SeatSlot(seat, date, timeSlot);
    var f := FirstMatch(db, q);
    if j :| 0 <= j < |db| && j != id && Matches(db[j], q) {
      OneHolderPerSlot(db, f.value, j);
    }
  }

  /** A successful book keeps slots unique. */
  lemma BookKeepsSlotsUnique(db: seq<Reservation>, caller: Caller, seat: SeatId, date: Day, timeSlot: string, now: Instant)
    requires SlotsUnique(db)
    requires BookVerdict(db, caller, seat, date, timeSlot, now) == Done
    ensures SlotsUnique(db + [Reservation(caller.id, seat, date, timeSlot, Active)])
  {
    AppendFreeSlot(db, Reservation(caller.id, seat, date, timeSlot, Active));
  }

  /** A successful assign keeps slots unique. */
  lemma AssignKeepsSlotsUnique(db: seq<Reservation>, caller: Caller, intern: UserId, seat: SeatId, date: Day, timeSlot: string, now: Instant)
    requires SlotsUnique(db)
    requires AssignVerdict(db, caller, intern, seat, date, timeSlot, now) == Done
    ensures SlotsUnique(db + [Reservation(intern, seat, date, timeSlot, Assigned)])
  {
    AppendFreeSlot(db, Reservation(intern, seat, date, timeSlot, Assigned));
  }

  /** A successful modify keeps slots unique: the only record that may hold
      the new slot is the one being moved. */
  lemma ModifyKeepsSlotsUnique(db: seq<Reservation>, caller: Caller, id: nat, date: Day, timeSlot: string, seat: SeatId, now: Instant)
    requires SlotsUnique(db)
    requires ModifyVerdict(db, caller, id, date, timeSlot, seat, now) == Done
    ensures id < |db| && SlotsUnique(db[id := Moved(db[id], date, timeSlot, seat)])
  {
    var r := Moved(db[id], date, timeSlot, seat);
    ModifyConflictMeansOther(db, id, seat, date, timeSlot);
    forall j | 0 <= j < |db| && j != id ensures !SameSlot(db[j], r) {
      assert SameSlot(db[j], r) ==> Matches(db[j], SeatSlot(seat, date, timeSlot));
    }
    RewriteFreeSlot(db, id, r);
  }

  /** Cancelling keeps slots unique: only the status changes. */
  lemma CancelKeepsSlotsUnique(db: seq<Reservation>, id: nat)
    requires SlotsUnique(db) && id < |db|
    ensures SlotsUnique(db[id := db[id].(status := Cancelled)])
  {
    RewriteFreeSlot(db, id, db[id].(status := Cancelled));
  }

  // ---------------------------------------------------------------------
  // Behaviour of the handlers

  /** A cancelled record still blocks its seat and slot for everyone, and
      its slot for its owner: book and assign refuse it. */
  lemma CancelledStillBlocks(db: seq<Reservation>, i: nat, caller: Caller, intern: UserId, now: Instant)
    requires i < |db| && db[i].status == Cancelled
    ensures BookVerdict(db, caller, db[i].seat, db[i].date, db[i].timeSlot, now).Refused?
    ensures caller.id == db[i].intern ==>
      BookVerdict(db, caller, db[i].seat, db[i].date, db[i].timeSlot, now) == Refused(SlotAlreadyYours)
    ensures AssignVerdict(db, caller, intern, db[i].seat, db[i].date, db[i].timeSlot, now).Refused?
  {
    assert Matches(db[i], SeatSlot(db[i].seat, db[i].date, db[i].timeSlot));
    assert Matches(db[i], InternSlot(db[i].intern, db[i].date, db[i].timeSlot));
  }

  /** Book reports a conflict before it looks at the clock: a past request
      for a held seat is told the seat is taken. */
  lemma BookConflictBeforeTime(db: seq<Reservation>, caller: Caller, seat: SeatId, date: Day, timeSlot: string, now: Instant)
    requires AnyMatch(db, SeatSlot(seat, date, timeSlot))
    ensures BookVerdict(db, caller, seat, date, timeSlot, now) in {Refused(SlotAlreadyYours), Refused(SeatAlreadyReserved)}
  {
  }

  /** A successful book or assign is for a slot that starts after now. */
  lemma AcceptedRequestIsFuture(db: seq<Reservation>, caller: Caller, intern: UserId, seat: SeatId, date: Day, timeSlot: string, now: Instant, h: int)
    requires ParseInt(timeSlot) == Some(h) && 0 <= h
    requires BookVerdict(db, caller, seat, date, timeSlot, now) == Done ||
             AssignVerdict(db, caller, intern, seat, date, timeSlot, now) == Done
    ensures AtHour(date, h) > now
  {
    DoneMeansTimeAccepted(db, caller, intern, seat, date, timeSlot, now);
    AcceptedSlotIsFuture(date, timeSlot, now, h);
  }

  /** Book and assign succeed only past the time rule. */
  lemma DoneMeansTimeAccepted(db: seq<Reservation>, caller: Caller, intern: UserId, seat: SeatId, date: Day, timeSlot: string, now: Instant)
    requires BookVerdict(db, caller, seat, date, timeSlot, now) == Done ||
             AssignVerdict(db, caller, intern, seat, date, timeSlot, now) == Done
    ensures !TimeRejected(date, timeSlot, now)
  {
  }

  /** Assign is stricter than book about the intern: any record of theirs
      that day, at any hour and in any status, blocks it. */
  lemma AssignBlockedByAnyRecordThatDay(db: seq<Reservation>, caller: Caller, i: nat, seat: SeatId, timeSlot: string, now: Instant)
    requires caller.role == Admin && i < |db|
    requires !AnyMatch(db, SeatSlot(seat, db[i].date, timeSlot))
    ensures AssignVerdict(db, caller, db[i].intern, seat, db[i].date, timeSlot, now) == Refused(InternBusyThatDay)
  {
    assert Matches(db[i], InternDay(db[i].intern, db[i].date));
  }

  /** The whole-day rule belongs to assign alone: an intern an admin has
      placed at one hour can still book another seat at another hour that day. */
  lemma AssignedInternCanBookSameDay(u: UserId, date: Day, now: Instant)
    requires date > DayOf(now)
    ensures BookVerdict([Reservation(u, 1, date, "9", Assigned)], Caller(u, Intern), 2, date, "10", now) == Done
  {
    var db := [Reservation(u, 1, date, "9", Assigned)];
    assert !Matches(db[0], InternSlot(u, date, "10"));
    assert !Matches(db[0], SeatSlot(2, date, "10"));
    FutureDayAccepted(date, "10", now);
  }

  /** Only the owning intern gets past cancel's second guard: an admin never cancels. */
  lemma AdminCannotCancel(db: seq<Reservation>, caller: Caller, id: nat, now: Instant)
    requires caller.role == Admin
    ensures CancelVerdict(db, caller, id, now) in {Refused(NotFound), Refused(Forbidden)}
  {
  }

  /** The owner cancels a slot whose hour lies out of the Date range,
      although it began long ago. */
  lemma OutOfRangeSlotCancels(db: seq<Reservation>, caller: Caller, id: nat, now: Instant, n: nat)
    requires id < |db| && caller.role == Intern && db[id].intern == caller.id
    requires 0 <= now <= MaxTime
    requires db[id].date == DayOf(now) + 1 && db[id].timeSlot == "-" + DecimalString(n)
    requires n >= 5_000_000_000
    ensures CancelVerdict(db, caller, id, now) == Done
  {
    OutOfRangeHourNeverElapses(db[id], now, n);
  }

  /** Cancelling does not look at the status: a second cancel of a future
      reservation succeeds again and leaves the same record. */
  lemma CancelIdempotent(db: seq<Reservation>, caller: Caller, id: nat, now: Instant)
    requires CancelVerdict(db, caller, id, now) == Done
    ensures id < |db|
    ensures var db' := db[id := db[id].(status := Cancelled)];
      CancelVerdict(db', caller, id, now) == Done &&
      db'[id := db'[id].(status := Cancelled)] == db'
  {
  }

  /** Modifying a reservation onto its own current seat and slot succeeds
      whenever that slot passes the time rule. */
  lemma UnchangedModifySucceeds(db: seq<Reservation>, caller: Caller, id: nat, now: Instant)
    requires SlotsUnique(db) && id < |db|
    requires db[id].intern == caller.id
    requires !TimeRejected(db[id].date, db[id].timeSlot, now)
    ensures ModifyVerdict(db, caller, id, db[id].date, db[id].timeSlot, db[id].seat, now) == Done
  {
    var r := db[id];
    ModifyConflictMeansOther(db, id, r.seat, r.date, r.timeSlot);
    forall j | 0 <= j < |db| && Matches(db[j], SeatSlot(r.seat, r.date, r.timeSlot)) ensures j == id {
      OneHolderPerSlot(db, id, j);
    }
  }

  /** Lookups see only intern, seat, date and slot: rewriting a record's
      status leaves every `findOne` result as it was. */
  lemma {:induction false} FirstMatchIgnoresStatus(db: seq<Reservation>, id: nat, st: Status, q: Query)
    requires id < |db|
    ensures FirstMatch(db[id := db[id].(status := st)], q) == FirstMatch(db, q)
  {
    var db' := db[id := db[id].(status := st)];
    assert Matches(db'[0], q) == Matches(db[0], q);
    if id == 0 {
      assert db'[1..] == db[1..];
    } else {
      assert db'[1..] == db[1..][id - 1 := db[id].(status := st)];
      FirstMatchIgnoresStatus(db[1..], id - 1, st, q);
    }
  }

  /** Modify does not look at the record's status: a cancelled or assigned
      reservation is moved exactly as an active one would be. */
  lemma ModifyIgnoresStatus(db: seq<Reservation>, caller: Caller, id: nat, st: Status,
                            date: Day, timeSlot: string, seat: SeatId, now: Instant)
    requires id < |db|
    ensures ModifyVerdict(db[id := db[id].(status := st)], caller, id, date, timeSlot, seat, now)
         == ModifyVerdict(db, caller, id, date, timeSlot, seat, now)
  {
    FirstMatchIgnoresStatus(db, id, st, SeatSlot(seat, date, timeSlot));
  }

  /** Modify never re-checks the owner's other reservations: it can leave
      one intern with two records in the same slot. */
  lemma ModifyCanDoubleBookIntern()
    ensures var db := [Reservation(7, 1, 5, "9", Active), Reservation(7, 2, 5, "10", Active)];
      && ModifyVerdict(db, Caller(7, Intern), 1, 5, "9", 2, 0) == Done
      && var db' := db[1 := Moved(db[1], 5, "9", 2)];
         Matches(db'[0], InternSlot(7, 5, "9")) && Matches(db'[1], InternSlot(7, 5, "9"))
  {
    var db := [Reservation(7, 1, 5, "9", Active), Reservation(7, 2, 5, "10", Active)];
    var q := SeatSlot(2, 5, "9");
    assert !Matches(db[0], q) && !Matches(db[1], q);
    FutureDayAccepted(5, "9", 0);
  }

  /** Slots are told apart by the `timeSlot` string, not by its value: a
      zero-padded spelling of a held hour reads as the same hour yet does not
      clash with it, so a second intern books the same seat at the same hour. */
  lemma TwoSpellingsOfOneHour(other: Reservation, caller: Caller, now: Instant, h: nat)
    requires other.intern != caller.id && other.date > DayOf(now)
    requires other.timeSlot == DecimalString(h)
    ensures ParseInt("0" + other.timeSlot) == ParseInt(other.timeSlot) == Some(h)
    ensures BookVerdict([other], caller, other.seat, other.date, "0" + other.timeSlot, now) == Done
  {
    ParseIntDecimal(h);
    ParseIntPadded(h);
    PaddedSlotIsFree(other, caller, now);
  }

  /** A record does not hold the slot spelled with an extra leading zero. */
  lemma PaddedSlotIsFree(other: Reservation, caller: Caller, now: Instant)
    requires other.intern != caller.id && other.date > DayOf(now)
    ensures BookVerdict([other], caller, other.seat, other.date, "0" + other.timeSlot, now) == Done
  {
    var padded := "0" + other.timeSlot;
    assert |padded| != |other.timeSlot|;
    assert !Matches([other][0], SeatSlot(other.seat, other.date, padded));
    assert !Matches([other][0], InternSlot(caller.id, other.date, padded));
    FutureDayAccepted(other.date, padded, now);
  }

  // ---------------------------------------------------------------------
  // The collection and its handlers

  class ReservationStore {
    var records: seq<Reservation>

    ghost predicate Valid()
      reads this
    {
      SlotsUnique(records)
    }

    constructor ()
      ensures Valid() && records == []
    {
      records := [];
    }

    /** `Reservation.findOne(q)`: scan in insertion order. */
    method FindOne(q: Query) returns (found: Option<nat>)
      ensures found.Some? ==> found.value < |records| && Matches(records[found.value], q)
      ensures found.Some? ==> forall k :: 0 <= k < found.value ==> !Matches(records[k], q)
      ensures found.None? <==> !AnyMatch(records, q)
    {
      var i := 0;
      while i < |records|
        invariant 0 <= i <= |records|
        invariant forall k :: 0 <= k < i ==> !Matches(records[k], q)
      {
        if Matches(records[i], q) {
          return Some(i);
        }
        i := i + 1;
      }
      return None;
    }

    /** POST /book by `caller`; the new record's status takes the schema default. */
    method Book(caller: Caller, seat: SeatId, date: Day, timeSlot: string, now: Instant) returns (outcome: Outcome)
      requires Valid()
      modifies this
      ensures Valid()
      ensures outcome == BookVerdict(old(records), caller, seat, date, timeSlot, now)
      ensures records == if outcome == Done then old(records) + [Reservation(caller.id, seat, date, timeSlot, Active)]
                         else old(records)
    {
      var existing := FindOne(InternSlot(caller.id, date, timeSlot));
      if existing.Some? {
        return Refused(SlotAlreadyYours);
      }
      var seatReserved := FindOne(SeatSlot(seat, date, timeSlot));
      if seatReserved.Some? {
        return Refused(SeatAlreadyReserved);
      }
      if TimeRejected(date, timeSlot, now) {
        return Refused(InvalidTime);
      }
      BookKeepsSlotsUnique(records, caller, seat, date, timeSlot, now);
      records := records + [Reservation(caller.id, seat, date, timeSlot, Active)];
      return Done;
    }

    /** POST /assign: an admin places `intern` on a seat. */
    method Assign(caller: Caller, intern: UserId, seat: SeatId, date: Day, timeSlot: string, now: Instant) returns (outcome: Outcome)
      requires Valid()
      modifies this
      ensures Valid()
      ensures outcome == AssignVerdict(old(records), caller, intern, seat, date, timeSlot, now)
      ensures records == if outcome == Done then old(records) + [Reservation(intern, seat, date, timeSlot, Assigned)]
                         else old(records)
    {
      if caller.role != Admin {
        return Refused(Forbidden);
      }
      var seatReserved := FindOne(SeatSlot(seat, date, timeSlot));
      if seatReserved.Some? {
        return Refused(SeatAlreadyReserved);
      }
      var existing := FindOne(InternDay(intern, date));
      if existing.Some? {
        return Refused(InternBusyThatDay);
      }
      if TimeRejected(date, timeSlot, now) {
        return Refused(InvalidTime);
      }
      AssignKeepsSlotsUnique(records, caller, intern, seat, date, timeSlot, now);
      records := records + [Reservation(intern, seat, date, timeSlot, Assigned)];
      return Done;
    }

    /** DELETE /:id: only `status` of the found record changes. */
    method Cancel(caller: Caller, id: nat, now: Instant) returns (outcome: Outcome)
      requires Valid()
      modifies this
      ensures Valid()
      ensures outcome == CancelVerdict(old(records), caller, id, now)
      ensures records == if outcome == Done then old(records)[id := old(records)[id].(status := Cancelled)]
                         else old(records)
    {
      if id >= |records| {
        return Refused(NotFound);
      }
      var reservation := records[id];
      if caller.role != Intern || reservation.intern != caller.id {
        return Refused(Forbidden);
      }
      if Elapsed(reservation, now) {
        return Refused(AlreadyElapsed);
      }
      CancelKeepsSlotsUnique(records, id);
      records := records[id := reservation.(status := Cancelled)];
      return Done;
    }

    /** PUT /:id: date, slot and seat of the found record are rewritten in place. */
    method Modify(caller: Caller, id: nat, date: Day, timeSlot: string, seat: SeatId, now: Instant) returns (outcome: Outcome)
      requires Valid()
      modifies this
      ensures Valid()
      ensures outcome == ModifyVerdict(old(records), caller, id, date, timeSlot, seat, now)
      ensures records == if outcome == Done then old(records)[id := Moved(old(records)[id], date, timeSlot, seat)]
                         else old(records)
    {
      if id >= |records| {
        return Refused(NotFound);
      }
      var reservation := records[id];
      if reservation.intern != caller.id {
        return Refused(Forbidden);
      }
      if TimeRejected(date, timeSlot, now) {
        return Refused(InvalidTime);
      }
      var seatTaken := FindOne(SeatSlot(seat, date, timeSlot));
      assert seatTaken == FirstMatch(records, SeatSlot(seat, date, timeSlot));
      if seatTaken.Some? && seatTaken.value != id {
        return Refused(SeatAlreadyReserved);
      }
      ModifyKeepsSlotsUnique(records, caller, id, date, timeSlot, seat, now);
      records := records[id := Moved(reservation, date, timeSlot, seat)];
      return Done;
    }
  }
}
