/** `backend/routes/reports.js`: the admin-only `/seat-usage` report, one
    aggregation pipeline over the reservation collection:
    `$group` by seat (counts by status and the list of entries), `$lookup`
    of the seat document, `$unwind` (which drops groups whose seat is gone),
    `$project`, and `$sort` by `totalReservations` descending.

    The pipeline reads and never writes, so it is a function of the
    reservation and seat lists. `$group` fixes no order of its output and
    `$sort` fixes no order among equal totals; the model takes groups in
    order of first appearance and sorts stably, one of the orders the
    pipeline may produce. */
module Reports {
  import opened Base
  import opened Clock
  import opened Reservations
  import opened Seats

  /** One element of a row's `reservations` list. */
  datatype Entry = Entry(date: Day, timeSlot: string, status: Status)

  /** One projected report row. */
  datatype UsageRow = UsageRow(
    seat: SeatId,
    seatNumber: string,
    seatLocation: string,
    totalReservations: nat,
    assignedCount: nat,
    activeCount: nat,
    cancelledCount: nat,
    reservations: seq<Entry>)

  datatype UsageResult = Usage(rows: seq<UsageRow>) | UsageForbidden

  predicate References(db: seq<Reservation>, seat: SeatId)
  {
    exists i :: 0 <= i < |db| && db[i].seat == seat
  }

  // ---------------------------------------------------------------------
  // $group

  /** The group keys: each seat id some reservation references, once, in order of first appearance. */
  function GroupKeys(db: seq<Reservation>): (keys: seq<SeatId>)
    ensures forall s :: s in keys <==> References(db, s)
    ensures forall a, b :: 0 <= a < b < |keys| ==> keys[a] != keys[b]
  {
    if db == [] then []
    else
      var keys := GroupKeys(db[..|db| - 1]);
      var s := db[|db| - 1].seat;
      assert forall t :: References(db, t) <==> References(db[..|db| - 1], t) || t == s by {
        forall t | References(db, t) ensures References(db[..|db| - 1], t) || t == s {
          var i :| 0 <= i < |db| && db[i].seat == t;
          if i < |db| - 1 { assert db[..|db| - 1][i] == db[i]; }
        }
        forall t | References(db[..|db| - 1], t) ensures References(db, t) {
          var i :| 0 <= i < |db| - 1 && db[..|db| - 1][i].seat == t;
          assert db[i].seat == t;
        }
      }
      if s in keys then keys else keys + [s]
  }

  /** `totalReservations: { $sum: 1 }`. */
  function Total(db: seq<Reservation>, seat: SeatId): nat
  {
    if db == [] then 0
    else (if db[0].seat == seat then 1 else 0) + Total(db[1..], seat)
  }

  /** `assignedCount`, `activeCount`, `cancelledCount`: `$sum` of `$cond` on the status. */
  function CountStatus(db: seq<Reservation>, seat: SeatId, st: Status): nat
  {
    if db == [] then 0
    else (if db[0].seat == seat && db[0].status == st then 1 else 0) + CountStatus(db[1..], seat, st)
  }

  /** `reservations: { $push: { date, timeSlot, status } }`. */
  function Entries(db: seq<Reservation>, seat: SeatId): seq<Entry>
  {
    if db == [] then []
    else (if db[0].seat == seat then [Entry(db[0].date, db[0].timeSlot, db[0].status)] else []) + Entries(db[1..], seat)
  }

  /** With the three-value status enum, the total is the sum of the three status counts. */
  lemma {:induction false} TotalIsStatusSum(db: seq<Reservation>, seat: SeatId)
    ensures Total(db, seat) == CountStatus(db, seat, Assigned) + CountStatus(db, seat, Active) + CountStatus(db, seat, Cancelled)
  {
    if db != [] {
      TotalIsStatusSum(db[1..], seat);
    }
  }

  /** A row's `reservations` list has one entry per counted reservation. */
  lemma {:induction false} EntriesCountTotal(db: seq<Reservation>, seat: SeatId)
    ensures |Entries(db, seat)| == Total(db, seat)
  {
    if db != [] {
      EntriesCountTotal(db[1..], seat);
    }
  }

  /** A group exists only for a referenced seat, so no row counts zero reservations. */
  lemma {:induction false} ReferencedTotalPositive(db: seq<Reservation>, seat: SeatId)
    requires References(db, seat)
    ensures Total(db, seat) >= 1
  {
    if db[0].seat != seat {
      var i :| 0 <= i < |db| && db[i].seat == seat;
      assert db[1..][i - 1].seat == seat;
      ReferencedTotalPositive(db[1..], seat);
    }
  }

  // ---------------------------------------------------------------------
  // $lookup, $unwind, $project

  /** The projected row of group `seat` joined with seat document `s`. */
  function GroupRow(db: seq<Reservation>, seat: SeatId, s: Seat): UsageRow
  {
    UsageRow(seat, s.number, s.location, Total(db, seat),
             CountStatus(db, seat, Assigned), CountStatus(db, seat, Active), CountStatus(db, seat, Cancelled),
             Entries(db, seat))
  }

  /** `$lookup` then `$unwind` for one group: a row per seat document with that id; none if the seat is gone. */
  function RowsForGroup(db: seq<Reservation>, seat: SeatId, seats: seq<Seat>): (rows: seq<UsageRow>)
    ensures forall r :: r in rows <==> exists s :: s in seats && s.id == seat && r == GroupRow(db, seat, s)
  {
    if seats == [] then []
    else (if seats[0].id == seat then [GroupRow(db, seat, seats[0])] else []) + RowsForGroup(db, seat, seats[1..])
  }

  /** All groups, joined and unwound, in group order. */
  function Joined(db: seq<Reservation>, keys: seq<SeatId>, seats: seq<Seat>): (rows: seq<UsageRow>)
    ensures forall r :: r in rows <==> exists k, s :: k in keys && s in seats && s.id == k && r == GroupRow(db, k, s)
  {
    if keys == [] then []
    else RowsForGroup(db, keys[0], seats) + Joined(db, keys[1..], seats)
  }

  predicate DistinctSeats(rows: seq<UsageRow>)
  {
    forall i, j :: 0 <= i < j < |rows| ==> rows[i].seat != rows[j].seat
  }

  /** With distinct seat ids, a group's lookup yields at most one row. */
  lemma {:induction false} RowsForGroupAtMostOne(db: seq<Reservation>, seat: SeatId, seats: seq<Seat>)
    requires IdsDistinct(seats)
    ensures |RowsForGroup(db, seat, seats)| <= 1
  {
    if seats != [] {
      var tail := seats[1..];
      assert IdsDistinct(tail) by {
        forall a, b | 0 <= a < b < |tail| ensures tail[a].id != tail[b].id {
          assert tail[a] == seats[a + 1] && tail[b] == seats[b + 1];
        }
      }
      if seats[0].id == seat {
        forall k | 0 <= k < |tail| ensures tail[k].id != seat {
          assert tail[k] == seats[k + 1];
        }
        NoRowsWithoutSeat(db, seat, tail);
      } else {
        RowsForGroupAtMostOne(db, seat, tail);
      }
    }
  }

  /** A group whose seat is gone gets no row (what `$unwind` drops). */
  lemma {:induction false} NoRowsWithoutSeat(db: seq<Reservation>, seat: SeatId, seats: seq<Seat>)
    requires forall k :: 0 <= k < |seats| ==> seats[k].id != seat
    ensures RowsForGroup(db, seat, seats) == []
  {
    if seats != [] {
      NoRowsWithoutSeat(db, seat, seats[1..]);
    }
  }

  /** Distinct group keys over distinct seat ids give rows with distinct seats. */
  lemma {:induction false} JoinedDistinct(db: seq<Reservation>, keys: seq<SeatId>, seats: seq<Seat>)
    requires IdsDistinct(seats)
    requires forall a, b :: 0 <= a < b < |keys| ==> keys[a] != keys[b]
    ensures DistinctSeats(Joined(db, keys, seats))
  {
    if keys != [] {
      var head := RowsForGroup(db, keys[0], seats);
      var tail := Joined(db, keys[1..], seats);
      RowsForGroupAtMostOne(db, keys[0], seats);
      JoinedDistinct(db, keys[1..], seats);
      forall r | r in tail ensures r.seat != keys[0] {
        var k, s :| k in keys[1..] && s in seats && s.id == k && r == GroupRow(db, k, s);
        var m :| 0 <= m < |keys[1..]| && keys[1..][m] == k;
        assert keys[m + 1] == k;
      }
      forall r | r in head ensures r.seat == keys[0] {
      }
      DistinctConcat(head, tail, keys[0]);
    }
  }

  /** Rows of one seat, at most one of them, before rows of other seats. */
  lemma DistinctConcat(head: seq<UsageRow>, tail: seq<UsageRow>, seat: SeatId)
    requires |head| <= 1 && (forall r :: r in head ==> r.seat == seat)
    requires DistinctSeats(tail) && (forall r :: r in tail ==> r.seat != seat)
    ensures DistinctSeats(head + tail)
  {
    var all := head + tail;
    forall i, j | 0 <= i < j < |all| ensures all[i].seat != all[j].seat {
      assert all[j] == tail[j - |head|];
      if i < |head| {
        assert all[i] == head[i];
      } else {
        assert all[i] == tail[i - |head|];
      }
    }
  }

  // ---------------------------------------------------------------------
  // $sort: { totalReservations: -1 }

  predicate NonIncreasing(rows: seq<UsageRow>)
  {
    forall i, j :: 0 <= i < j < |rows| ==> rows[i].totalReservations >= rows[j].totalReservations
  }

  /** Places `row` before the first row with a total not above its own. */
  function Insert(row: UsageRow, rows: seq<UsageRow>): (r: seq<UsageRow>)
    ensures multiset(r) == multiset(rows) + multiset{row}
  {
    if rows == [] || row.totalReservations >= rows[0].totalReservations then [row] + rows
    else
      assert rows == [rows[0]] + rows[1..];
      [rows[0]] + Insert(row, rows[1..])
  }

  /** Inserting into non-increasing rows keeps them non-increasing. */
  lemma {:induction false} InsertKeepsOrder(row: UsageRow, rows: seq<UsageRow>)
    requires NonIncreasing(rows)
    ensures NonIncreasing(Insert(row, rows))
  {
    if rows != [] && row.totalReservations < rows[0].totalReservations {
      var rest := Insert(row, rows[1..]);
      InsertKeepsOrder(row, rows[1..]);
      assert rest[0].totalReservations <= rows[0].totalReservations by {
        if |rows| > 1 && row.totalReservations < rows[1].totalReservations {
          assert rest[0] == rows[1];
        }
      }
      ConsKeepsOrder(rows[0], rest);
    }
  }

  /** A row no smaller than the head of non-increasing rows may go in front. */
  lemma ConsKeepsOrder(row: UsageRow, rows: seq<UsageRow>)
    requires NonIncreasing(rows)
    requires rows != [] ==> row.totalReservations >= rows[0].totalReservations
    ensures NonIncreasing([row] + rows)
  {
    var r := [row] + rows;
    forall i, j | 0 <= i < j < |r| ensures r[i].totalReservations >= r[j].totalReservations {
      assert r[j] == rows[j - 1];
      if i > 0 { assert r[i] == rows[i - 1]; }
    }
  }

  /** The `$sort` stage: a non-increasing permutation of its input. */
  function SortByTotal(rows: seq<UsageRow>): (r: seq<UsageRow>)
    ensures multiset(r) == multiset(rows)
    ensures NonIncreasing(r)
  {
    if rows == [] then []
    else
      assert rows == [rows[0]] + rows[1..];
      InsertKeepsOrder(rows[0], SortByTotal(rows[1..]));
      Insert(rows[0], SortByTotal(rows[1..]))
  }

  /** In rows with distinct seats, each row occurs once. */
  lemma MultiplicityOne(a: seq<UsageRow>, p: nat)
    requires DistinctSeats(a) && p < |a|
    ensures multiset(a)[a[p]] == 1
  {
    var x := a[p];
    assert a == a[..p] + [x] + a[p + 1..];
    forall k | 0 <= k < p ensures a[..p][k] != x {
      assert a[k].seat != a[p].seat;
    }
    var after := a[p + 1..];
    forall k | 0 <= k < |after| ensures after[k] != x {
      assert after[k] == a[p + 1 + k];
    }
    assert x !in a[..p] && x !in a[p + 1..];
  }

  /** A permutation of rows with distinct seats has distinct seats. */
  lemma PermutationKeepsDistinct(a: seq<UsageRow>, b: seq<UsageRow>)
    requires multiset(a) == multiset(b) && DistinctSeats(a)
    ensures DistinctSeats(b)
  {
    forall i, j | 0 <= i < j < |b| ensures b[i].seat != b[j].seat {
      assert b[i] in multiset(a) && b[j] in multiset(a);
      var p :| 0 <= p < |a| && a[p] == b[i];
      var q :| 0 <= q < |a| && a[q] == b[j];
      MultiplicityOne(a, q);
      assert b == b[..j] + [b[j]] + b[j + 1..];
      assert multiset(b)[b[j]] == multiset(b[..j])[b[j]] + 1 + multiset(b[j + 1..])[b[j]];
      assert b[i] in multiset(b[..j]) by { assert b[..j][i] == b[i]; }
      assert b[i] != b[j];
      assert p != q;
    }
  }

  // ---------------------------------------------------------------------
  // GET /seat-usage

  /** The rows before sorting. */
  function UnsortedRows(db: seq<Reservation>, seats: seq<Seat>): seq<UsageRow>
  {
    Joined(db, GroupKeys(db), seats)
  }

  function SeatUsage(caller: Caller, db: seq<Reservation>, seats: seq<Seat>): (r: UsageResult)
    ensures r == UsageForbidden <==> caller.role != Admin
    ensures r.Usage? ==> NonIncreasing(r.rows) && multiset(r.rows) == multiset(UnsortedRows(db, seats))
  {
    if caller.role != Admin then UsageForbidden
    else Usage(SortByTotal(UnsortedRows(db, seats)))
  }

  /** Every row is the group of a referenced seat that still exists, with
      counts that add up and one entry per counted reservation. */
  lemma RowsSound(caller: Caller, db: seq<Reservation>, seats: seq<Seat>, r: UsageRow)
    requires SeatUsage(caller, db, seats).Usage? && r in SeatUsage(caller, db, seats).rows
    ensures References(db, r.seat)
    ensures exists s :: s in seats && s.id == r.seat && r.seatNumber == s.number && r.seatLocation == s.location
    ensures r.totalReservations == Total(db, r.seat) >= 1
    ensures r.totalReservations == r.assignedCount + r.activeCount + r.cancelledCount
    ensures |r.reservations| == r.totalReservations
  {
    assert r in multiset(SeatUsage(caller, db, seats).rows);
    assert r in UnsortedRows(db, seats);
    var k, s :| k in GroupKeys(db) && s in seats && s.id == k && r == GroupRow(db, k, s);
    ReferencedTotalPositive(db, k);
    TotalIsStatusSum(db, k);
    EntriesCountTotal(db, k);
  }

  /** Every referenced seat that still exists gets its row. */
  lemma RowsComplete(caller: Caller, db: seq<Reservation>, seats: seq<Seat>, s: Seat)
    requires caller.role == Admin
    requires References(db, s.id) && s in seats
    ensures GroupRow(db, s.id, s) in SeatUsage(caller, db, seats).rows
  {
    var row := GroupRow(db, s.id, s);
    assert row in UnsortedRows(db, seats);
    assert row in multiset(SeatUsage(caller, db, seats).rows);
  }

  /** With distinct seat ids, no seat has two rows. */
  lemma RowsOnePerSeat(caller: Caller, db: seq<Reservation>, seats: seq<Seat>)
    requires caller.role == Admin && IdsDistinct(seats)
    ensures DistinctSeats(SeatUsage(caller, db, seats).rows)
  {
    JoinedDistinct(db, GroupKeys(db), seats);
    PermutationKeepsDistinct(UnsortedRows(db, seats), SeatUsage(caller, db, seats).rows);
  }

  /** A seat that no reservation references gets no row. */
  lemma UnreferencedSeatHasNoRow(caller: Caller, db: seq<Reservation>, seats: seq<Seat>, seat: SeatId)
    requires SeatUsage(caller, db, seats).Usage? && !References(db, seat)
    ensures forall r :: r in SeatUsage(caller, db, seats).rows ==> r.seat != seat
  {
    forall r | r in SeatUsage(caller, db, seats).rows ensures r.seat != seat {
      RowsSound(caller, db, seats, r);
    }
  }
}
