/** What the booking engine guarantees across calls: the invariant every
    store built by Book, Enqueue and Cancel keeps, how the waiting queue
    moves when a reservation is cancelled, and the behaviour the service
    tests pin down. */
module BookingProperties {
  import opened Errors
  import opened Chrono
  import opened Reservations
  import opened ReservationQueries
  import opened Booking

  /** No slot has two BOOKED reservations. */
  ghost predicate AtMostOneBooked(rows: seq<Row>) {
    forall i, j :: 0 <= i < j < |rows| && rows[i].status == Booked && rows[j].status == Booked
                   ==> rows[i].slot != rows[j].slot
  }

  /** No slot has more WAITING reservations than the capacity. */
  ghost predicate WithinCapacity(rows: seq<Row>) {
    forall slot :: CountWaiting(rows, slot) <= WaitingCapacity
  }

  /** No member holds two active (BOOKED or WAITING) reservations of the
      same slot. */
  ghost predicate OneActivePerOwner(rows: seq<Row>) {
    forall i, j :: 0 <= i < j < |rows| && IsActive(rows[i].status) && IsActive(rows[j].status)
                   && rows[i].slot == rows[j].slot
                   ==> rows[i].member.id != rows[j].member.id
  }

  ghost predicate EngineInvariant(rows: seq<Row>) {
    WellNumbered(rows) && AtMostOneBooked(rows) && WithinCapacity(rows) && OneActivePerOwner(rows)
  }

  /** `rows'` is `rows` with some statuses changed and nothing else. */
  ghost predicate SameRecords(rows: seq<Row>, rows': seq<Row>) {
    |rows'| == |rows| && forall i :: 0 <= i < |rows| ==> rows'[i] == rows[i].(status := rows'[i].status)
  }

  lemma EmptyStoreKeepsInvariant()
    ensures EngineInvariant([])
  {
    forall slot
      ensures CountWaiting([], slot) == 0
    {
    }
  }

  // ---------------------------------------------------------------------
  // The invariant is kept

  lemma BookKeepsInvariant(rows: seq<Row>, cat: Catalog, req: ReservationRequest, now: Instant)
    requires EngineInvariant(rows) && Book(rows, cat, req, now).Ok?
    ensures EngineInvariant(Book(rows, cat, req, now).value)
  {
    var row := NewRow(rows, Resolve(cat, req).value, req, now, Booked);
    var rows' := rows + [row];
    assert Book(rows, cat, req, now).value == rows';
    assert forall i :: 0 <= i < |rows| && rows[i].status == Booked ==> rows[i].slot != row.slot;
    assert forall i :: 0 <= i < |rows| && IsActive(rows[i].status) && rows[i].slot == row.slot
                       ==> rows[i].member.id != row.member.id;
    forall slot
      ensures CountWaiting(rows', slot) <= WaitingCapacity
    {
      CountAfterAppend(rows, row, slot);
    }
  }

  lemma EnqueueKeepsInvariant(rows: seq<Row>, cat: Catalog, req: ReservationRequest, now: Instant)
    requires EngineInvariant(rows) && Enqueue(rows, cat, req, now).Ok?
    ensures EngineInvariant(Enqueue(rows, cat, req, now).value)
  {
    var res := Resolve(cat, req).value;
    var row := NewRow(rows, res, req, now, Waiting);
    var rows' := rows + [row];
    assert Enqueue(rows, cat, req, now).value == rows';
    assert forall i :: 0 <= i < |rows| && IsActive(rows[i].status) && rows[i].slot == row.slot
                       ==> rows[i].member.id != row.member.id;
    forall slot
      ensures CountWaiting(rows', slot) <= WaitingCapacity
    {
      CountAfterAppend(rows, row, slot);
    }
  }

  /** Setting one reservation to a status other than WAITING and BOOKED. */
  lemma LeavingKeepsInvariant(rows: seq<Row>, k: nat, s: BookStatus)
    requires EngineInvariant(rows) && k < |rows| && s != Waiting && s != Booked
    ensures EngineInvariant(rows[k := rows[k].(status := s)])
    ensures SameRecords(rows, rows[k := rows[k].(status := s)])
  {
    var rows' := rows[k := rows[k].(status := s)];
    forall slot
      ensures CountWaiting(rows', slot) <= WaitingCapacity
    {
      CountAfterLeaving(rows, k, s, slot);
    }
  }

  lemma PromoteKeepsInvariant(rows: seq<Row>, slot: Slot)
    requires EngineInvariant(rows)
    ensures EngineInvariant(Promote(rows, slot))
    ensures SameRecords(rows, Promote(rows, slot))
  {
    if !ExistsBooked(rows, slot) {
      match FirstWaiting(rows, slot)
      case None =>
      case Some(j) =>
        var rows' := rows[j := rows[j].(status := Booked)];
        assert Promote(rows, slot) == rows';
        assert forall i :: 0 <= i < |rows| && rows[i].status == Booked ==> rows[i].slot != rows[j].slot;
        forall s
          ensures CountWaiting(rows', s) <= WaitingCapacity
        {
          CountAfterLeaving(rows, j, Booked, s);
        }
    }
  }

  lemma CancelKeepsInvariant(rows: seq<Row>, cat: Catalog, memberId: nat, id: nat)
    requires EngineInvariant(rows) && Cancel(rows, cat, memberId, id).Ok?
    ensures EngineInvariant(Cancel(rows, cat, memberId, id).value)
    ensures SameRecords(rows, Cancel(rows, cat, memberId, id).value)
  {
    var k := id - 1;
    var rows1 := rows[k := rows[k].(status := CancelledStatus(rows[k].status))];
    LeavingKeepsInvariant(rows, k, CancelledStatus(rows[k].status));
    PromoteKeepsInvariant(rows1, rows[k].slot);
  }

  // ---------------------------------------------------------------------
  // The waiting queue

  /** When every waiter of the slot was created before `t`, all are ahead
      of a waiter created at `t`. */
  lemma {:induction false} AllWaitersAhead(rows: seq<Row>, slot: Slot, t: Instant)
    requires forall i :: 0 <= i < |rows| && WaitingIn(rows[i], slot) ==> rows[i].createdAt < t
    ensures WaitingCount(rows, slot, t) == CountWaiting(rows, slot)
    decreases |rows|
  {
    if rows != [] {
      AllWaitersAhead(rows[..|rows| - 1], slot, t);
    }
  }

  /** Cancelling a waiter shortens its queue by exactly one. */
  lemma CountAfterCancellingWaiter(rows: seq<Row>, k: nat, s: BookStatus, slot: Slot)
    requires k < |rows| && WaitingIn(rows[k], slot) && s != Waiting
    ensures CountWaiting(rows[k := rows[k].(status := s)], slot) == CountWaiting(rows, slot) - 1
  {
    var rows' := rows[k := rows[k].(status := s)];
    CountWaitingIsWaiters(rows, slot);
    CountWaitingIsWaiters(rows', slot);
    assert Waiters(rows', slot) == Waiters(rows, slot) - {k};
  }

  /** A successful enqueue puts the member at the back of the slot's queue:
      the queue grows by one, the new waiter has every earlier waiter ahead
      of it, and on an empty queue it is the first waiter. */
  lemma EnqueueJoinsBackOfQueue(rows: seq<Row>, cat: Catalog, req: ReservationRequest, now: Instant)
    requires Enqueue(rows, cat, req, now).Ok?
    requires forall i :: 0 <= i < |rows| && WaitingIn(rows[i], ResolvedSlot(Resolve(cat, req).value, req))
                         ==> rows[i].createdAt < now
    ensures var slot := ResolvedSlot(Resolve(cat, req).value, req);
            var rows' := Enqueue(rows, cat, req, now).value;
            && CountWaiting(rows', slot) == CountWaiting(rows, slot) + 1
            && WaitingCount(rows', slot, now) == CountWaiting(rows, slot)
            && (CountWaiting(rows, slot) == 0 ==> FirstWaiting(rows', slot) == Some(|rows|)
                                                  && rows'[|rows|].member == cat.members[req.memberId])
  {
    var slot := ResolvedSlot(Resolve(cat, req).value, req);
    var row := NewRow(rows, Resolve(cat, req).value, req, now, Waiting);
    var rows' := rows + [row];
    assert Enqueue(rows, cat, req, now).value == rows';
    CountAfterAppend(rows, row, slot);
    AllWaitersAhead(rows, slot, now);
    assert rows'[..|rows|] == rows;
    forall i | 0 <= i < |rows| && WaitingIn(rows[i], slot)
      ensures CountWaiting(rows, slot) > 0
    {
      RankWithinQueue(rows, slot, i);
    }
  }

  /** With the capacity reached, a member who holds nothing in the slot is
      turned away; one place short of it, the same request is accepted. */
  lemma CapacityDecidesEnqueue(rows: seq<Row>, cat: Catalog, req: ReservationRequest, now: Instant)
    requires Resolve(cat, req).Ok? && now <= At(req.date, cat.times[req.timeId].startAt)
    requires !HasActive(rows, cat.members[req.memberId].id, ResolvedSlot(Resolve(cat, req).value, req))
    ensures CountWaiting(rows, ResolvedSlot(Resolve(cat, req).value, req)) == WaitingCapacity
            ==> Enqueue(rows, cat, req, now) == Err(WaitingListExceeded)
    ensures CountWaiting(rows, ResolvedSlot(Resolve(cat, req).value, req)) == WaitingCapacity - 1
            ==> Enqueue(rows, cat, req, now).Ok?
  {
  }

  /** A booked slot cannot be booked again, by anyone, while its booking
      stands. */
  lemma BookedSlotIsTaken(rows: seq<Row>, cat: Catalog, req: ReservationRequest, now: Instant,
                          req2: ReservationRequest, now2: Instant)
    requires Book(rows, cat, req, now).Ok?
    requires Resolve(cat, req2).Ok? && now2 <= At(req2.date, cat.times[req2.timeId].startAt)
    requires ResolvedSlot(Resolve(cat, req2).value, req2) == ResolvedSlot(Resolve(cat, req).value, req)
    ensures Book(Book(rows, cat, req, now).value, cat, req2, now2) == Err(DuplicatedReservation)
  {
    var rows' := Book(rows, cat, req, now).value;
    assert rows'[|rows|].status == Booked;
  }

  // ---------------------------------------------------------------------
  // Cancelling

  /** The cancelled reservation is the only one of a BOOKED slot: after it
      leaves, the slot has no BOOKED reservation, and its waiters are
      unchanged. */
  lemma CancellingTheBookingFreesSlot(rows: seq<Row>, k: nat)
    requires AtMostOneBooked(rows) && k < |rows| && rows[k].status == Booked
    ensures var rows1 := rows[k := rows[k].(status := BookingCancelled)];
            && !ExistsBooked(rows1, rows[k].slot)
            && forall i :: 0 <= i < |rows| ==> WaitingIn(rows1[i], rows[k].slot) == WaitingIn(rows[i], rows[k].slot)
  {
    var rows1 := rows[k := rows[k].(status := BookingCancelled)];
    forall i | 0 <= i < |rows| && i != k && rows[i].status == Booked
      ensures rows[i].slot != rows[k].slot
    {
      if i < k {
        assert rows[i].slot != rows[k].slot;
      } else {
        assert rows[k].slot != rows[i].slot;
      }
    }
  }

  /** Cancelling a booking of a slot with waiters books an earliest waiter
      of that slot and changes nothing else: the slot stays booked. */
  lemma CancelBookingPromotesEarliestWaiter(rows: seq<Row>, cat: Catalog, memberId: nat, id: nat)
    requires EngineInvariant(rows) && 1 <= id <= |rows| && Cancel(rows, cat, memberId, id).Ok?
    requires rows[id - 1].status == Booked
    requires exists j :: 0 <= j < |rows| && WaitingIn(rows[j], rows[id - 1].slot)
    ensures exists j: nat :: IsEarliestWaiter(rows, rows[id - 1].slot, j)
                        && Cancel(rows, cat, memberId, id).value
                           == rows[id - 1 := rows[id - 1].(status := BookingCancelled)][j := rows[j].(status := Booked)]
    ensures ExistsBooked(Cancel(rows, cat, memberId, id).value, rows[id - 1].slot)
  {
    var k := id - 1;
    var slot := rows[k].slot;
    var rows1 := rows[k := rows[k].(status := BookingCancelled)];
    CancellingTheBookingFreesSlot(rows, k);
    var j :| 0 <= j < |rows| && WaitingIn(rows[j], slot);
    assert WaitingIn(rows1[j], slot);
    var w := FirstWaiting(rows1, slot).value;
    assert Cancel(rows, cat, memberId, id).value == rows1[w := rows1[w].(status := Booked)];
    assert rows1[w] == rows[w];
    assert IsEarliestWaiter(rows, slot, w);
    assert Cancel(rows, cat, memberId, id).value[w].status == Booked;
  }

  /** Cancelling a booking of a slot nobody waits for leaves it without a
      booking, and nothing else changes. */
  lemma CancelBookingWithoutWaitersFreesSlot(rows: seq<Row>, cat: Catalog, memberId: nat, id: nat)
    requires EngineInvariant(rows) && 1 <= id <= |rows| && Cancel(rows, cat, memberId, id).Ok?
    requires rows[id - 1].status == Booked
    requires forall j :: 0 <= j < |rows| ==> !WaitingIn(rows[j], rows[id - 1].slot)
    ensures Cancel(rows, cat, memberId, id).value == rows[id - 1 := rows[id - 1].(status := BookingCancelled)]
    ensures !ExistsBooked(Cancel(rows, cat, memberId, id).value, rows[id - 1].slot)
  {
    CancellingTheBookingFreesSlot(rows, id - 1);
  }

  /** Cancelling a waiter behind a booking only removes it from the queue:
      nobody is promoted and the queue is one shorter. */
  lemma CancelWaiterBehindBooking(rows: seq<Row>, cat: Catalog, memberId: nat, id: nat)
    requires WellNumbered(rows) && 1 <= id <= |rows| && Cancel(rows, cat, memberId, id).Ok?
    requires rows[id - 1].status == Waiting && ExistsBooked(rows, rows[id - 1].slot)
    ensures Cancel(rows, cat, memberId, id).value == rows[id - 1 := rows[id - 1].(status := WaitingCancelled)]
    ensures CountWaiting(Cancel(rows, cat, memberId, id).value, rows[id - 1].slot)
            == CountWaiting(rows, rows[id - 1].slot) - 1
  {
    var k := id - 1;
    StillBooked(rows, k, WaitingCancelled);
    CountAfterCancellingWaiter(rows, k, WaitingCancelled, rows[k].slot);
  }

  /** A slot keeps its booking when one of its waiters leaves, so there is
      nobody to promote. */
  lemma StillBooked(rows: seq<Row>, k: nat, s: BookStatus)
    requires k < |rows| && rows[k].status == Waiting && ExistsBooked(rows, rows[k].slot)
    ensures var rows1 := rows[k := rows[k].(status := s)];
            ExistsBooked(rows1, rows[k].slot) && Promote(rows1, rows[k].slot) == rows1
  {
    var rows1 := rows[k := rows[k].(status := s)];
    var b :| 0 <= b < |rows| && rows[b].slot == rows[k].slot && rows[b].status == Booked;
    assert rows1[b] == rows[b];
  }

  /** Cancelling a waiter of a slot without a booking books an earliest of
      the remaining waiters, when there is one. */
  lemma CancelWaiterPromotesNextWaiter(rows: seq<Row>, cat: Catalog, memberId: nat, id: nat)
    requires WellNumbered(rows) && 1 <= id <= |rows| && Cancel(rows, cat, memberId, id).Ok?
    requires rows[id - 1].status == Waiting && !ExistsBooked(rows, rows[id - 1].slot)
    requires exists j :: 0 <= j < |rows| && j != id - 1 && WaitingIn(rows[j], rows[id - 1].slot)
    ensures exists j: nat :: j != id - 1 && IsEarliestWaiter(rows[id - 1 := rows[id - 1].(status := WaitingCancelled)], rows[id - 1].slot, j)
                        && Cancel(rows, cat, memberId, id).value
                           == rows[id - 1 := rows[id - 1].(status := WaitingCancelled)][j := rows[j].(status := Booked)]
  {
    var k := id - 1;
    var slot := rows[k].slot;
    var rows1 := rows[k := rows[k].(status := WaitingCancelled)];
    var j :| 0 <= j < |rows| && j != k && WaitingIn(rows[j], slot);
    assert WaitingIn(rows1[j], slot);
    assert !ExistsBooked(rows1, slot) by {
      assert forall i :: 0 <= i < |rows| && i != k ==> rows1[i] == rows[i];
    }
    var w := FirstWaiting(rows1, slot).value;
    assert w != k;
    assert Cancel(rows, cat, memberId, id).value == rows1[w := rows1[w].(status := Booked)];
    assert rows1[w] == rows[w];
  }

  // ---------------------------------------------------------------------
  // The behaviour the tests pin down, with their dates as epoch days

  const Jan1st1999: Date := 10592
  const Jan3rd1999: Date := 10594
  const Dec31st1999: Date := 10956
  const Jan1st2023: Date := 19358
  const Jan1st2024: Date := 19723
  const Dec25th2024: Date := 20082
  const Noon: TimeOfDay := 12 * 3600 * 1_000_000_000

  const Aru := Member(1, false)
  const Pk := Member(2, false)
  const TwelvePm := ReservationTime(1, Noon)
  const TestTheme := Theme(1)

  /** The catalog of a test: two members, the noon time and one theme. */
  function TestCatalog(): (c: Catalog)
    ensures Consistent(c)
  {
    Catalog(map[1 := Aru, 2 := Pk], map[1 := TwelvePm], map[1 := TestTheme])
  }

  /** Booking a free future slot stores one BOOKED reservation. */
  lemma ValidRequestIsBooked(now: Instant)
    requires now <= At(Jan1st2024, Noon)
    ensures Book([], TestCatalog(), ReservationRequest(1, Jan1st2024, 1, 1), now)
            == Ok([Row(1, Aru, Slot(1, Jan1st2024, 1), now, Booked)])
  {
    var cat := TestCatalog();
    var req := ReservationRequest(1, Jan1st2024, 1, 1);
    assert Resolve(cat, req) == Ok(Resolved(Aru, TwelvePm, TestTheme));
    assert CheckCreatedAt(Jan1st2024, Noon, now).None?;
    assert !ExistsBooked([], Slot(1, Jan1st2024, 1));
    var row := Row(1, Aru, Slot(1, Jan1st2024, 1), now, Booked);
    assert NewRow([], Resolved(Aru, TwelvePm, TestTheme), req, now, Booked) == row;
    assert [] + [row] == [row];
  }

  /** An unknown time, then an unknown theme, fail with their messages. */
  lemma UnknownTimeOrThemeIsRejected(rows: seq<Row>, now: Instant)
    ensures Book(rows, TestCatalog(), ReservationRequest(1, Jan1st2024, 99, 1), now)
            == Err(NoSuchElement(TimeNotFoundMessage))
    ensures Book(rows, TestCatalog(), ReservationRequest(1, Jan1st2024, 1, 99), now)
            == Err(NoSuchElement(ThemeNotFoundMessage))
  {
  }

  /** A request for a slot that has started is refused as past. */
  lemma PastRequestIsRejected(rows: seq<Row>, now: Instant)
    requires At(Dec31st1999, Noon) < now
    ensures Book(rows, TestCatalog(), ReservationRequest(1, Dec31st1999, 1, 1), now)
            == Err(IllegalArgument(PastReservationMessage))
  {
  }

  /** Enqueueing on an empty slot makes the member the first waiter. */
  lemma QueueingMakesFirstWaiter(now: Instant)
    requires now <= At(Jan1st2023, Noon)
    ensures Enqueue([], TestCatalog(), ReservationRequest(1, Jan1st2023, 1, 1), now).Ok?
    ensures var rows := Enqueue([], TestCatalog(), ReservationRequest(1, Jan1st2023, 1, 1), now).value;
            FirstWaiting(rows, Slot(1, Jan1st2023, 1)) == Some(0) && rows[0].member == Aru
  {
  }

  /** Two waiters and no booking: when the earlier one cancels, the later
      one is booked. */
  lemma CancellingFirstWaiterBooksNext()
    ensures var slot := Slot(1, Jan1st2023, 1);
            var first := Row(1, Aru, slot, At(Jan1st1999, 0), Waiting);
            var next := Row(2, Pk, slot, At(Jan3rd1999, 0), Waiting);
            Cancel([first, next], TestCatalog(), 1, 1)
            == Ok([first.(status := WaitingCancelled), next.(status := Booked)])
  {
    var slot := Slot(1, Jan1st2023, 1);
    var first := Row(1, Aru, slot, At(Jan1st1999, 0), Waiting);
    var next := Row(2, Pk, slot, At(Jan3rd1999, 0), Waiting);
    var rows1 := [first.(status := WaitingCancelled), next];
    assert [first, next][0 := first.(status := WaitingCancelled)] == rows1;
    assert FirstWaiting(rows1[..1], slot) == None;
    assert FirstWaiting(rows1, slot) == Some(1);
    assert !ExistsBooked(rows1, slot);
    assert Promote(rows1, slot) == [first.(status := WaitingCancelled), next.(status := Booked)];
    assert FindById([first, next], 1) == Ok(first);
  }

  /** A member who already holds the slot, booked or waiting, cannot join
      its queue. */
  lemma HolderCannotQueue(status: BookStatus, now: Instant)
    requires status == Booked || status == Waiting
    requires now <= At(Jan1st2023, Noon)
    ensures var held := Row(1, Aru, Slot(1, Jan1st2023, 1), At(Jan1st1999, 0), status);
            Enqueue([held], TestCatalog(), ReservationRequest(1, Jan1st2023, 1, 1), now)
            == Err(DuplicatedReservation)
  {
    var held := Row(1, Aru, Slot(1, Jan1st2023, 1), At(Jan1st1999, 0), status);
    assert HasActive([held], 1, Slot(1, Jan1st2023, 1)) by {
      assert [held][0] == held;
    }
  }

  /** A member waiting for a slot nobody has booked cannot book it as well:
      a second active reservation of the same slot is a duplicate. */
  lemma WaiterCannotAlsoBook(now: Instant)
    requires now <= At(Jan1st2023, Noon)
    ensures var waiting := Row(1, Aru, Slot(1, Jan1st2023, 1), At(Jan1st1999, 0), Waiting);
            && !ExistsBooked([waiting], Slot(1, Jan1st2023, 1))
            && Book([waiting], TestCatalog(), ReservationRequest(1, Jan1st2023, 1, 1), now)
               == Err(DuplicatedReservation)
  {
    var waiting := Row(1, Aru, Slot(1, Jan1st2023, 1), At(Jan1st1999, 0), Waiting);
    assert HasActive([waiting], 1, Slot(1, Jan1st2023, 1)) by {
      assert [waiting][0] == waiting;
    }
  }

  /** A booking, then five waiters created at the same instant: the queue
      is full. */
  function FullSlot(): (rows: seq<Row>)
    ensures |rows| == 6 && WellNumbered(rows)
  {
    var slot := Slot(1, Jan1st2023, 1);
    var at := At(Jan1st1999, Noon);
    [Row(1, Pk, slot, at, Booked)] + seq(5, i requires 0 <= i < 5 => Row(i + 2, Member(i + 3, false), slot, at, Waiting))
  }

  lemma FullQueueRejectsNewWaiter(now: Instant)
    requires now <= At(Jan1st2023, Noon)
    ensures CountWaiting(FullSlot(), Slot(1, Jan1st2023, 1)) == WaitingCapacity
    ensures Enqueue(FullSlot(), TestCatalog(), ReservationRequest(1, Jan1st2023, 1, 1), now)
            == Err(WaitingListExceeded)
  {
    var slot := Slot(1, Jan1st2023, 1);
    var rows := FullSlot();
    CountWaitingIsWaiters(rows, slot);
    assert Waiters(rows, slot) == {1, 2, 3, 4, 5};
    assert !HasActive(rows, 1, slot);
  }

  /** Ten waiters of one slot, created at noon on ten consecutive days. */
  function TenWaiters(): (rows: seq<Row>)
    ensures |rows| == 10 && WellNumbered(rows)
  {
    seq(10, d requires 0 <= d < 10 => Row(d + 1, Aru, Slot(1, Dec25th2024, 1), At(Jan1st2023 + d, Noon), Waiting))
  }

  /** The first waiter is the one created first, and a waiter created on
      the fifth day has four waiters ahead of it. */
  lemma TenWaitersQueue()
    ensures FirstWaiting(TenWaiters(), Slot(1, Dec25th2024, 1)).Some?
    ensures TenWaiters()[FirstWaiting(TenWaiters(), Slot(1, Dec25th2024, 1)).value].createdAt
            == At(Jan1st2023, Noon)
    ensures WaitingCount(TenWaiters(), Slot(1, Dec25th2024, 1), At(Jan1st2023 + 4, Noon)) == 4
  {
    var rows := TenWaiters();
    var slot := Slot(1, Dec25th2024, 1);
    forall i, j | 0 <= i < j < |rows|
      ensures rows[i].createdAt < rows[j].createdAt
    {
      AtOrder(Jan1st2023 + i, Noon, Jan1st2023 + j, Noon);
    }
    assert WaitingIn(rows[0], slot);
    RankInOrderedQueue(rows, slot, 4);
  }
}
