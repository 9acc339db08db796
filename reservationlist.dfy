/** The reservation list of the React client
    (`seat-reservation-frontend/src/components/Reservations.js`): whether a
    row counts as expired, which badge it shows, and which buttons an intern
    gets. The client's clock and the backend's are taken to be the same `now`. */
module ReservationList {
  import opened Base
  import opened Clock
  import opened JsText
  import opened Reservations

  /** The badge text. */
  datatype Badge = ExpiredBadge | CancelledBadge | ActiveBadge

  /** The action area of a row. */
  datatype Actions =
    | NoActions                    // admins get no buttons
    | Disabled(text: Badge)        // one disabled button reading "Expired" or "Cancelled"
    | CancelAndModify              // the two live buttons

  /** `resDate.setHours(parseInt(res.timeSlot), 0, 0, 0); resDate < now`. A
      time slot `parseInt` cannot read, or an hour that moves the time out of
      the Date range, gives an invalid date, and comparing an invalid date is
      false. */
  predicate IsExpired(r: Reservation, now: Instant)
  {
    match ParseInt(r.timeSlot)
    case Some(h) => InDateRange(AtHour(r.date, h)) && AtHour(r.date, h) < now
    case None => false
  }

  /** `getStatusInfo`: expiry first, then the stored status; anything not
      cancelled, `assigned` included, shows as active. */
  function StatusBadge(r: Reservation, expired: bool): Badge
  {
    if expired then ExpiredBadge
    else if r.status == Cancelled then CancelledBadge
    else ActiveBadge
  }

  /** The buttons rendered for a row. */
  function RowActions(role: Role, r: Reservation, expired: bool): Actions
  {
    if role != Intern then NoActions
    else if expired || r.status == Cancelled then Disabled(if expired then ExpiredBadge else CancelledBadge)
    else CancelAndModify
  }

  /** An intern's buttons agree with the badge: live buttons exactly under an
      active badge, otherwise one disabled button reading what the badge reads. */
  lemma ButtonsFollowBadge(r: Reservation, expired: bool)
    ensures RowActions(Intern, r, expired) == CancelAndModify <==> StatusBadge(r, expired) == ActiveBadge
    ensures RowActions(Intern, r, expired).Disabled? ==> RowActions(Intern, r, expired).text == StatusBadge(r, expired)
    ensures RowActions(Admin, r, expired) == NoActions
  {
  }

  /** The client's expiry (strictly before now) against the backend's
      (at or before now): they differ only when the slot starts exactly now. */
  lemma ExpiryAgainstBackend(r: Reservation, now: Instant)
    ensures IsExpired(r, now) ==> Elapsed(r, now)
    ensures Elapsed(r, now) && !IsExpired(r, now) <==>
            ParseInt(r.timeSlot).Some? && InDateRange(now) && AtHour(r.date, ParseInt(r.timeSlot).value) == now
  {
  }

  /** The client offers Cancel on a row of the intern's own that the backend
      refuses exactly when the slot starts at this very instant. */
  lemma OfferedCancelRefusedOnlyAtStart(db: seq<Reservation>, caller: Caller, id: nat, now: Instant)
    requires id < |db| && caller.role == Intern && db[id].intern == caller.id
    requires RowActions(caller.role, db[id], IsExpired(db[id], now)) == CancelAndModify
    ensures CancelVerdict(db, caller, id, now) != Done <==>
            ParseInt(db[id].timeSlot).Some? && InDateRange(now) && AtHour(db[id].date, ParseInt(db[id].timeSlot).value) == now
  {
    ExpiryAgainstBackend(db[id], now);
  }

  /** Every cancel the backend would accept on a row that is not already
      cancelled is offered by the client. */
  lemma AcceptedCancelIsOffered(db: seq<Reservation>, caller: Caller, id: nat, now: Instant)
    requires CancelVerdict(db, caller, id, now) == Done
    ensures id < |db|
    ensures db[id].status != Cancelled ==> RowActions(caller.role, db[id], IsExpired(db[id], now)) == CancelAndModify
  {
    ExpiryAgainstBackend(db[id], now);
  }

  /** A slot whose hour lies out of the Date range never shows as expired;
      the client and the backend agree that it can be cancelled. */
  lemma OutOfRangeSlotOffersCancel(r: Reservation, now: Instant, n: nat)
    requires r.status != Cancelled
    requires 0 <= now <= MaxTime
    requires r.date == DayOf(now) + 1 && r.timeSlot == "-" + DecimalString(n)
    requires n >= 5_000_000_000
    ensures !IsExpired(r, now) && !Elapsed(r, now)
    ensures RowActions(Intern, r, IsExpired(r, now)) == CancelAndModify
  {
    OutOfRangeHourNeverElapses(r, now, n);
    ExpiryAgainstBackend(r, now);
  }

  /** An admin's assignment shows as active to the intern until it expires. */
  lemma AssignedShowsActive(r: Reservation, now: Instant)
    requires r.status == Assigned && !IsExpired(r, now)
    ensures StatusBadge(r, IsExpired(r, now)) == ActiveBadge
    ensures RowActions(Intern, r, IsExpired(r, now)) == CancelAndModify
  {
  }
}
