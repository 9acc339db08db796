/** `backend/routes/seats.js`: the two read-only slot projections
    (`GET /available`, `GET /status`) over the seat and reservation lists,
    and the admin-only create, update and delete of seats. */
module Seats {
  import opened Base
  import opened Clock
  import opened Reservations

  /** A seat document; `status` is the schema's string field, default `"available"`. */
  datatype Seat = Seat(id: SeatId, number: string, location: string, status: string)

  /** The status `/status` computes for one seat in one slot. */
  datatype SlotState = Available | Unavailable | ReservedByMe

  /** A `/status` entry: the seat's fields with `status` replaced. */
  datatype SeatView = SeatView(id: SeatId, number: string, location: string, status: SlotState)

  datatype SeatError =
    | MissingSlot   // 400 "Date and timeSlot required"
    | AdminOnly     // 403 "Forbidden - Admin access required"
    | NoSuchSeat    // 404 "Seat not found"
    | Invalid       // 400, the schema rejects the seat on save

  datatype Result<T> = Ok(value: T) | Err(error: SeatError)

  /** The query-string check `!date || !timeSlot`: an absent or empty
      parameter is missing. An absent or empty date is `None`. */
  predicate SlotGiven(date: Option<Day>, timeSlot: string)
  {
    date.Some? && timeSlot != ""
  }

  /** Is some reservation, of any status, on this seat at this date and slot. */
  predicate Reserved(db: seq<Reservation>, seat: SeatId, date: Day, timeSlot: string)
  {
    AnyMatch(db, SeatSlot(seat, date, timeSlot))
  }

  // ---------------------------------------------------------------------
  // GET /available

  /** The seats whose id is not the seat of any reservation in the slot, in seat-list order. */
  function FreeSeats(seats: seq<Seat>, db: seq<Reservation>, date: Day, timeSlot: string): (r: seq<Seat>)
    ensures |r| <= |seats|
    ensures forall s :: s in r <==> s in seats && !Reserved(db, s.id, date, timeSlot)
  {
    if seats == [] then []
    else
      var rest := FreeSeats(seats[1..], db, date, timeSlot);
      if Reserved(db, seats[0].id, date, timeSlot) then rest else [seats[0]] + rest
  }

  /** `GET /available?date&timeSlot`. */
  function AvailableSeats(seats: seq<Seat>, db: seq<Reservation>, date: Option<Day>, timeSlot: string): (r: Result<seq<Seat>>)
    ensures r.Err? <==> !SlotGiven(date, timeSlot)
    ensures r.Err? ==> r.error == MissingSlot
    ensures r.Ok? ==> forall s :: s in r.value <==> s in seats && !Reserved(db, s.id, date.value, timeSlot)
  {
    if !SlotGiven(date, timeSlot) then Err(MissingSlot)
    else Ok(FreeSeats(seats, db, date.value, timeSlot))
  }

  // ---------------------------------------------------------------------
  // GET /status

  /** The status of one seat: `find` takes the first reservation of the slot
      on that seat; its owner decides between "reserved-by-me" and "unavailable". */
  function StateOf(db: seq<Reservation>, seat: SeatId, date: Day, timeSlot: string, caller: Caller): (st: SlotState)
    ensures st == Available <==> !Reserved(db, seat, date, timeSlot)
    ensures st == ReservedByMe ==>
      exists j :: 0 <= j < |db| && Matches(db[j], SeatSlot(seat, date, timeSlot)) && db[j].intern == caller.id
    ensures st == Unavailable ==>
      exists j :: 0 <= j < |db| && Matches(db[j], SeatSlot(seat, date, timeSlot)) && db[j].intern != caller.id
  {
    match FirstMatch(db, SeatSlot(seat, date, timeSlot))
    case None => Available
    case Some(j) => if db[j].intern == caller.id then ReservedByMe else Unavailable
  }

  /** One entry per seat, in seat-list order. */
  function SeatStates(seats: seq<Seat>, db: seq<Reservation>, date: Day, timeSlot: string, caller: Caller): (r: seq<SeatView>)
    ensures |r| == |seats|
    ensures forall i :: 0 <= i < |seats| ==>
      r[i] == SeatView(seats[i].id, seats[i].number, seats[i].location, StateOf(db, seats[i].id, date, timeSlot, caller))
  {
    if seats == [] then []
    else
      [SeatView(seats[0].id, seats[0].number, seats[0].location, StateOf(db, seats[0].id, date, timeSlot, caller))]
      + SeatStates(seats[1..], db, date, timeSlot, caller)
  }

  /** `GET /status?date&timeSlot`. */
  function StatusView(seats: seq<Seat>, db: seq<Reservation>, date: Option<Day>, timeSlot: string, caller: Caller): (r: Result<seq<SeatView>>)
    ensures r.Err? <==> !SlotGiven(date, timeSlot)
    ensures r.Err? ==> r.error == MissingSlot
    ensures r.Ok? ==> r.value == SeatStates(seats, db, date.value, timeSlot, caller)
    ensures r.Ok? ==> |r.value| == |seats|
  {
    if !SlotGiven(date, timeSlot) then Err(MissingSlot)
    else Ok(SeatStates(seats, db, date.value, timeSlot, caller))
  }

  /** The two projections agree: a seat is listed by `/available` exactly
      when its `/status` entry is "available". */
  lemma AvailableAgreesWithStatus(seats: seq<Seat>, db: seq<Reservation>, date: Option<Day>, timeSlot: string, caller: Caller, i: nat)
    requires SlotGiven(date, timeSlot) && i < |seats|
    ensures AvailableSeats(seats, db, date, timeSlot).Ok?
    ensures StatusView(seats, db, date, timeSlot, caller).Ok?
    ensures seats[i] in AvailableSeats(seats, db, date, timeSlot).value
        <==> StatusView(seats, db, date, timeSlot, caller).value[i].status == Available
  {
  }

  /** With one record per seat and slot, "reserved-by-me" means the caller
      holds that seat in that slot, whichever record `find` happens to hit. */
  lemma ReservedByMeMeansOwnRecord(db: seq<Reservation>, seat: SeatId, date: Day, timeSlot: string, caller: Caller)
    requires SlotsUnique(db)
    ensures StateOf(db, seat, date, timeSlot, caller) == ReservedByMe <==>
      exists j :: 0 <= j < |db| && Matches(db[j], SeatSlot(seat, date, timeSlot)) && db[j].intern == caller.id
  {
    var q := SeatSlot(seat, date, timeSlot);
    if j :| 0 <= j < |db| && Matches(db[j], q) && db[j].intern == caller.id {
      var f := FirstMatch(db, q);
      OneHolderPerSlot(db, f.value, j);
    }
  }

  // ---------------------------------------------------------------------
  // The seat collection

  /** `req.body.status || "available"`. */
  function CreatedStatus(requested: string): string
  {
    if requested == "" then "available" else requested
  }

  /** The schema's enum for a seat's status, checked when a new seat is saved. */
  predicate SeatStatusAllowed(st: string)
  {
    st == "available" || st == "unavailable"
  }

  /** Every seat but the ones with this id, in order. */
  function Without(seats: seq<Seat>, id: SeatId): seq<Seat>
  {
    if seats == [] then []
    else if seats[0].id == id then Without(seats[1..], id)
    else [seats[0]] + Without(seats[1..], id)
  }

  /** Removing an id keeps exactly the seats with another id. */
  lemma {:induction false} WithoutKeepsOthers(seats: seq<Seat>, id: SeatId)
    ensures forall s :: s in Without(seats, id) <==> s in seats && s.id != id
  {
    if seats != [] {
      WithoutKeepsOthers(seats[1..], id);
      assert forall s :: s in seats <==> s == seats[0] || s in seats[1..];
    }
  }

  ghost predicate IdsDistinct(seats: seq<Seat>)
  {
    forall i, j :: 0 <= i < j < |seats| ==> seats[i].id != seats[j].id
  }

  /** No seat but the one at `i` carries its id. */
  predicate UniqueIdAt(seats: seq<Seat>, i: nat)
    requires i < |seats|
  {
    forall k :: 0 <= k < |seats| && k != i ==> seats[k].id != seats[i].id
  }

  /** When its id is unique, cutting out the seat at `i` is removing its id. */
  lemma {:induction false} CutIsWithout(seats: seq<Seat>, i: nat)
    requires i < |seats| && UniqueIdAt(seats, i)
    ensures seats[..i] + seats[i + 1..] == Without(seats, seats[i].id)
  {
    var id := seats[i].id;
    var tail := seats[1..];
    if i == 0 {
      forall k | 0 <= k < |tail| ensures tail[k].id != id {
        assert tail[k] == seats[k + 1];
      }
      WithoutAbsent(tail, id);
      assert seats[..0] + seats[1..] == tail;
    } else {
      assert tail[i - 1] == seats[i];
      assert UniqueIdAt(tail, i - 1) by {
        forall k | 0 <= k < |tail| && k != i - 1 ensures tail[k].id != tail[i - 1].id {
          assert tail[k] == seats[k + 1];
        }
      }
      CutIsWithout(tail, i - 1);
      assert seats[0].id != id;
      assert Without(seats, id) == [seats[0]] + Without(tail, id);
      assert tail[..i - 1] == seats[1..i] && tail[i..] == seats[i + 1..];
      assert seats[..i] == [seats[0]] + seats[1..i];
    }
  }

  /** Cutting out one seat keeps the other ids distinct. */
  lemma CutKeepsDistinct(seats: seq<Seat>, i: nat)
    requires IdsDistinct(seats) && i < |seats|
    ensures IdsDistinct(seats[..i] + seats[i + 1..])
  {
    var cut := seats[..i] + seats[i + 1..];
    forall a, b | 0 <= a < b < |cut| ensures cut[a].id != cut[b].id {
      var a', b' := if a < i then a else a + 1, if b < i then b else b + 1;
      assert cut[a] == seats[a'] && cut[b] == seats[b'];
    }
  }

  /** Removing an id nobody has changes nothing. */
  lemma {:induction false} WithoutAbsent(seats: seq<Seat>, id: SeatId)
    requires forall k :: 0 <= k < |seats| ==> seats[k].id != id
    ensures Without(seats, id) == seats
  {
    if seats != [] {
      WithoutAbsent(seats[1..], id);
    }
  }

  class SeatInventory {
    var seats: seq<Seat>
    var nextId: SeatId

    /** Ids are distinct and all below the next one handed out. */
    ghost predicate Valid()
      reads this
    {
      IdsDistinct(seats) && forall i :: 0 <= i < |seats| ==> seats[i].id < nextId
    }

    constructor ()
      ensures Valid() && seats == []
    {
      seats := [];
      nextId := 0;
    }

    /** `Seat.findById(id)`. */
    method Find(id: SeatId) returns (found: Option<nat>)
      ensures found.Some? ==> found.value < |seats| && seats[found.value].id == id
      ensures found.None? <==> forall k :: 0 <= k < |seats| ==> seats[k].id != id
    {
      var i := 0;
      while i < |seats|
        invariant 0 <= i <= |seats|
        invariant forall k :: 0 <= k < i ==> seats[k].id != id
      {
        if seats[i].id == id {
          return Some(i);
        }
        i := i + 1;
      }
      return None;
    }

    /** `POST /`: admin only; an empty status becomes "available", and a
        status outside the enum fails the save. */
    method Create(caller: Caller, number: string, location: string, status: string) returns (r: Result<Seat>)
      requires Valid()
      modifies this
      ensures Valid()
      ensures caller.role != Admin ==> r == Err(AdminOnly)
      ensures caller.role == Admin && !SeatStatusAllowed(CreatedStatus(status)) ==> r == Err(Invalid)
      ensures caller.role == Admin && SeatStatusAllowed(CreatedStatus(status)) ==>
        r == Ok(Seat(old(nextId), number, location, CreatedStatus(status)))
      ensures r.Ok? ==> seats == old(seats) + [r.value] && UnusedId(r.value.id, old(seats))
      ensures r.Err? ==> seats == old(seats)
    {
      if caller.role != Admin {
        return Err(AdminOnly);
      }
      var st := CreatedStatus(status);
      if !SeatStatusAllowed(st) {
        return Err(Invalid);
      }
      var seat := Seat(nextId, number, location, st);
      seats := seats + [seat];
      nextId := nextId + 1;
      return Ok(seat);
    }

    /** `PUT /:id`: admin only; a field left out of the request keeps its
        value, and no enum check runs on update. */
    method Update(caller: Caller, id: SeatId, number: Option<string>, location: Option<string>, status: Option<string>)
      returns (r: Result<Seat>)
      requires Valid()
      modifies this
      ensures Valid() && nextId == old(nextId)
      ensures caller.role != Admin ==> r == Err(AdminOnly)
      ensures caller.role == Admin && (forall k :: 0 <= k < |old(seats)| ==> old(seats)[k].id != id) ==> r == Err(NoSuchSeat)
      ensures caller.role == Admin && (exists k :: 0 <= k < |old(seats)| && old(seats)[k].id == id) ==> r.Ok?
      ensures r.Err? ==> seats == old(seats)
      ensures r.Ok? ==>
        exists i :: 0 <= i < |old(seats)| && old(seats)[i].id == id && UpdatedAt(old(seats), i, number, location, status, r.value, seats)
    {
      if caller.role != Admin {
        return Err(AdminOnly);
      }
      var found := Find(id);
      if found.None? {
        return Err(NoSuchSeat);
      }
      var i := found.value;
      var seat := Seat(id, Pick(number, seats[i].number), Pick(location, seats[i].location), Pick(status, seats[i].status));
      seats := seats[i := seat];
      return Ok(seat);
    }

    /** `DELETE /:id`: admin only; removes exactly that seat. Reservations
        are a different collection and are left as they are. */
    method Delete(caller: Caller, id: SeatId) returns (r: Result<Seat>)
      requires Valid()
      modifies this
      ensures Valid() && nextId == old(nextId)
      ensures caller.role != Admin ==> r == Err(AdminOnly)
      ensures caller.role == Admin && (forall k :: 0 <= k < |old(seats)| ==> old(seats)[k].id != id) ==> r == Err(NoSuchSeat)
      ensures caller.role == Admin && (exists k :: 0 <= k < |old(seats)| && old(seats)[k].id == id) ==> r.Ok?
      ensures r.Err? ==> seats == old(seats)
      ensures r.Ok? ==> r.value in old(seats) && r.value.id == id && seats == Without(old(seats), id)
    {
      if caller.role != Admin {
        return Err(AdminOnly);
      }
      var found := Find(id);
      if found.None? {
        return Err(NoSuchSeat);
      }
      var i := found.value;
      var seat := seats[i];
      var cut := seats[..i] + seats[i + 1..];
      assert UniqueIdAt(seats, i);
      CutIsWithout(seats, i);
      CutKeepsDistinct(seats, i);
      forall k | 0 <= k < |cut| ensures cut[k].id < nextId {
        if k < i { assert cut[k] == seats[k]; } else { assert cut[k] == seats[k + 1]; }
      }
      seats := cut;
      return Ok(seat);
    }
  }

  /** An id no seat in the list carries. */
  predicate UnusedId(id: SeatId, seats: seq<Seat>)
  {
    forall k :: 0 <= k < |seats| ==> seats[k].id != id
  }

  /** The seat at `i` rewritten from the request into `updated`, nothing else changed. */
  ghost predicate UpdatedAt(before: seq<Seat>, i: nat, number: Option<string>, location: Option<string>, status: Option<string>,
                            updated: Seat, after: seq<Seat>)
    requires i < |before|
  {
    && updated == Seat(before[i].id, Pick(number, before[i].number), Pick(location, before[i].location), Pick(status, before[i].status))
    && after == before[i := updated]
  }

  /** A request field when present, the stored value otherwise. */
  function Pick(given: Option<string>, stored: string): string
  {
    if given.Some? then given.value else stored
  }
}
