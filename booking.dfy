/** The booking engine: booking a slot, joining its waiting list, and
    cancelling with promotion of the next waiter.

    Each operation is first described on the value of the store (the
    functions Book, Enqueue and Cancel, from the rows before to the rows
    after or an error), and then carried out by a method of Service on the
    store's objects, which is proved to do exactly what the function says. */
module Booking {
  import opened Errors
  import opened Chrono
  import opened Reservations
  import opened ReservationQueries
  import opened ReservationStore

  /** At most this many WAITING reservations per slot. */
  const WaitingCapacity: nat := 5

  /** A request for a slot on behalf of a member. */
  datatype ReservationRequest = ReservationRequest(memberId: nat, date: Date, timeId: nat, themeId: nat)

  /** The member, time and theme repositories, as maps from id to entity. */
  datatype Catalog = Catalog(members: map<nat, Member>, times: map<nat, ReservationTime>, themes: map<nat, Theme>)

  /** Every entity is filed under its own id. */
  ghost predicate Consistent(cat: Catalog) {
    && (forall k :: k in cat.members ==> cat.members[k].id == k)
    && (forall k :: k in cat.times ==> cat.times[k].id == k)
    && (forall k :: k in cat.themes ==> cat.themes[k].id == k)
  }

  datatype Resolved = Resolved(member: Member, time: ReservationTime, theme: Theme)

  function RequestSlot(req: ReservationRequest): Slot {
    Slot(req.themeId, req.date, req.timeId)
  }

  /** Looking up the member, then the time, then the theme of a request. */
  function Resolve(cat: Catalog, req: ReservationRequest): (r: Result<Resolved>)
    ensures r.Ok? <==> req.memberId in cat.members && req.timeId in cat.times && req.themeId in cat.themes
    ensures r.Ok? ==> r.value == Resolved(cat.members[req.memberId], cat.times[req.timeId], cat.themes[req.themeId])
    ensures req.memberId !in cat.members ==> r == Err(MemberNotFound)
    ensures req.memberId in cat.members && req.timeId !in cat.times ==> r == Err(NoSuchElement(TimeNotFoundMessage))
    ensures req.memberId in cat.members && req.timeId in cat.times && req.themeId !in cat.themes
            ==> r == Err(NoSuchElement(ThemeNotFoundMessage))
  {
    if req.memberId !in cat.members then Err(MemberNotFound)
    else if req.timeId !in cat.times then Err(NoSuchElement(TimeNotFoundMessage))
    else if req.themeId !in cat.themes then Err(NoSuchElement(ThemeNotFoundMessage))
    else Ok(Resolved(cat.members[req.memberId], cat.times[req.timeId], cat.themes[req.themeId]))
  }

  /** The slot a resolved request occupies. */
  function ResolvedSlot(res: Resolved, req: ReservationRequest): Slot {
    Slot(res.theme.id, req.date, res.time.id)
  }

  /** The row a successful request appends. */
  function NewRow(rows: seq<Row>, res: Resolved, req: ReservationRequest, now: Instant, s: BookStatus): Row {
    Row(|rows| + 1, res.member, ResolvedSlot(res, req), now, s)
  }

  /** With a catalog that files every entity under its own id, a resolved
      request occupies exactly the slot it names. */
  lemma ResolvedSlotIsRequested(cat: Catalog, req: ReservationRequest)
    requires Consistent(cat) && Resolve(cat, req).Ok?
    ensures ResolvedSlot(Resolve(cat, req).value, req) == RequestSlot(req)
  {
  }

  /** bookReservation on the store's value. A slot that is booked, or in
      which the member already holds a booking or a place in the queue, is
      refused as a duplicate. */
  function Book(rows: seq<Row>, cat: Catalog, req: ReservationRequest, now: Instant): (r: Result<seq<Row>>)
    ensures r.Ok? <==> Resolve(cat, req).Ok?
                       && now <= At(req.date, cat.times[req.timeId].startAt)
                       && !ExistsBooked(rows, ResolvedSlot(Resolve(cat, req).value, req))
                       && !HasActive(rows, Resolve(cat, req).value.member.id, ResolvedSlot(Resolve(cat, req).value, req))
    ensures r.Ok? ==> r.value == rows + [NewRow(rows, Resolve(cat, req).value, req, now, Booked)]
    ensures Resolve(cat, req).Err? ==> r == Err(Resolve(cat, req).error)
    ensures Resolve(cat, req).Ok? && now > At(req.date, cat.times[req.timeId].startAt)
            ==> r == Err(IllegalArgument(PastReservationMessage))
    ensures Resolve(cat, req).Ok? && now <= At(req.date, cat.times[req.timeId].startAt)
            && (|| ExistsBooked(rows, ResolvedSlot(Resolve(cat, req).value, req))
                || HasActive(rows, Resolve(cat, req).value.member.id, ResolvedSlot(Resolve(cat, req).value, req)))
            ==> r == Err(DuplicatedReservation)
  {
    match Resolve(cat, req)
    case Err(e) => Err(e)
    case Ok(res) =>
      var slot := ResolvedSlot(res, req);
      var past := CheckCreatedAt(req.date, res.time.startAt, now);
      if past.Some? then Err(past.value)
      else if ExistsBooked(rows, slot) || HasActive(rows, res.member.id, slot) then Err(DuplicatedReservation)
      else Ok(rows + [NewRow(rows, res, req, now, Booked)])
  }

  /** enqueueWaitingList on the store's value. */
  function Enqueue(rows: seq<Row>, cat: Catalog, req: ReservationRequest, now: Instant): (r: Result<seq<Row>>)
    ensures r.Ok? <==> Resolve(cat, req).Ok?
                       && now <= At(req.date, cat.times[req.timeId].startAt)
                       && !HasActive(rows, Resolve(cat, req).value.member.id, ResolvedSlot(Resolve(cat, req).value, req))
                       && CountWaiting(rows, ResolvedSlot(Resolve(cat, req).value, req)) < WaitingCapacity
    ensures r.Ok? ==> r.value == rows + [NewRow(rows, Resolve(cat, req).value, req, now, Waiting)]
    ensures Resolve(cat, req).Err? ==> r == Err(Resolve(cat, req).error)
    ensures Resolve(cat, req).Ok? && now > At(req.date, cat.times[req.timeId].startAt)
            ==> r == Err(IllegalArgument(PastReservationMessage))
    ensures Resolve(cat, req).Ok? && now <= At(req.date, cat.times[req.timeId].startAt)
            && HasActive(rows, Resolve(cat, req).value.member.id, ResolvedSlot(Resolve(cat, req).value, req))
            ==> r == Err(DuplicatedReservation)
    ensures Resolve(cat, req).Ok? && now <= At(req.date, cat.times[req.timeId].startAt)
            && !HasActive(rows, Resolve(cat, req).value.member.id, ResolvedSlot(Resolve(cat, req).value, req))
            && CountWaiting(rows, ResolvedSlot(Resolve(cat, req).value, req)) >= WaitingCapacity
            ==> r == Err(WaitingListExceeded)
  {
    match Resolve(cat, req)
    case Err(e) => Err(e)
    case Ok(res) =>
      var slot := ResolvedSlot(res, req);
      var past := CheckCreatedAt(req.date, res.time.startAt, now);
      if past.Some? then Err(past.value)
      else if HasActive(rows, res.member.id, slot) then Err(DuplicatedReservation)
      else if CountWaiting(rows, slot) >= WaitingCapacity then Err(WaitingListExceeded)
      else Ok(rows + [NewRow(rows, res, req, now, Waiting)])
  }

  /** The promotion step: when the slot has no BOOKED reservation left, an
      earliest WAITING one becomes BOOKED; otherwise nothing changes. */
  function Promote(rows: seq<Row>, slot: Slot): (r: seq<Row>)
    ensures |r| == |rows|
    ensures forall i :: 0 <= i < |rows| ==> r[i] == rows[i].(status := r[i].status)
    ensures ExistsBooked(rows, slot) ==> r == rows
    ensures (forall j :: 0 <= j < |rows| ==> !WaitingIn(rows[j], slot)) ==> r == rows
    ensures !ExistsBooked(rows, slot) && (exists j :: 0 <= j < |rows| && WaitingIn(rows[j], slot)) ==>
              exists j :: 0 <= j < |rows| && IsEarliestWaiter(rows, slot, j)
                          && r == rows[j := rows[j].(status := Booked)]
  {
    if ExistsBooked(rows, slot) then rows
    else
      match FirstWaiting(rows, slot)
      case None => rows
      case Some(j) => rows[j := rows[j].(status := Booked)]
  }

  /** What a cancellation does to the reservation itself: cancelBooking when
      it is BOOKED, cancelWaiting otherwise. */
  function CancelledStatus(s: BookStatus): (c: BookStatus)
    ensures c != Booked && c != Waiting
    ensures c == BookingCancelled <==> s == Booked
  {
    if s == Booked then BookingCancelled else WaitingCancelled
  }

  /** cancelWaitingList on the store's value: look up the member and the
      reservation, refuse a member who may not modify it, cancel it, and
      then promote in its slot. */
  function Cancel(rows: seq<Row>, cat: Catalog, memberId: nat, id: nat): (r: Result<seq<Row>>)
    requires WellNumbered(rows)
    ensures r.Ok? <==> memberId in cat.members && 1 <= id <= |rows|
                       && (cat.members[memberId].isAdmin || cat.members[memberId].id == rows[id - 1].member.id)
    ensures r.Ok? ==> r.value == Promote(rows[id - 1 := rows[id - 1].(status := CancelledStatus(rows[id - 1].status))],
                                         rows[id - 1].slot)
    ensures memberId !in cat.members ==> r == Err(MemberNotFound)
    ensures memberId in cat.members && !(1 <= id <= |rows|) ==> r == Err(NoSuchElement(ReservationNotFoundMessage))
    ensures memberId in cat.members && 1 <= id <= |rows| && CannotModify(cat.members[memberId], rows[id - 1].member)
            ==> r == Err(NotModifiable)
  {
    if memberId !in cat.members then Err(MemberNotFound)
    else
      match FindById(rows, id)
      case Err(e) => Err(e)
      case Ok(target) =>
        if CannotModify(cat.members[memberId], target.member) then Err(NotModifiable)
        else
          var k := id - 1;
          Ok(Promote(rows[k := target.(status := CancelledStatus(target.status))], target.slot))
  }

  /** The engine over a store and the catalog it resolves requests with. */
  class Service {
    const store: Store
    const catalog: Catalog

    ghost predicate Valid()
      reads store, store.rows
    {
      store.Valid()
    }

    constructor (store: Store, catalog: Catalog)
      requires store.Valid()
      ensures this.store == store && this.catalog == catalog && Valid()
    {
      this.store := store;
      this.catalog := catalog;
    }

    /** bookReservation: store a new BOOKED reservation, or fail. */
    method BookReservation(req: ReservationRequest, now: Instant) returns (res: Result<nat>)
      requires Valid()
      modifies store
      ensures Valid()
      ensures var spec := Book(old(store.Snapshot()), catalog, req, now);
              && (res.Ok? <==> spec.Ok?)
              && (spec.Ok? ==> store.Snapshot() == spec.value && res.value == |spec.value|)
              && (spec.Err? ==> res == Err(spec.error) && store.Snapshot() == old(store.Snapshot()))
    {
      var resolved := Resolve(catalog, req);
      if resolved.Err? {
        return Err(resolved.error);
      }
      var created := Reservation.Create(resolved.value.member, req.date, resolved.value.time,
                                        resolved.value.theme, now, Booked);
      if created.Err? {
        return Err(created.error);
      }
      var reservation := created.value;
      var slot := reservation.SlotOf();
      if ExistsBooked(store.Snapshot(), slot) || HasActive(store.Snapshot(), resolved.value.member.id, slot) {
        return Err(DuplicatedReservation);
      }
      store.Save(reservation);
      return Ok(|store.rows|);
    }

    /** enqueueWaitingList: store a new WAITING reservation, or fail. */
    method EnqueueWaitingList(req: ReservationRequest, now: Instant) returns (res: Result<nat>)
      requires Valid()
      modifies store
      ensures Valid()
      ensures var spec := Enqueue(old(store.Snapshot()), catalog, req, now);
              && (res.Ok? <==> spec.Ok?)
              && (spec.Ok? ==> store.Snapshot() == spec.value && res.value == |spec.value|)
              && (spec.Err? ==> res == Err(spec.error) && store.Snapshot() == old(store.Snapshot()))
    {
      var resolved := Resolve(catalog, req);
      if resolved.Err? {
        return Err(resolved.error);
      }
      var created := Reservation.Create(resolved.value.member, req.date, resolved.value.time,
                                        resolved.value.theme, now, Waiting);
      if created.Err? {
        return Err(created.error);
      }
      var reservation := created.value;
      var slot := reservation.SlotOf();
      if HasActive(store.Snapshot(), resolved.value.member.id, slot) {
        return Err(DuplicatedReservation);
      }
      if CountWaiting(store.Snapshot(), slot) >= WaitingCapacity {
        return Err(WaitingListExceeded);
      }
      store.Save(reservation);
      return Ok(|store.rows|);
    }

    /** The reservation's own transition: cancelBooking when it is BOOKED,
        cancelWaiting otherwise. */
    method CancelInPlace(reservation: Reservation, ghost k: nat)
      requires Valid() && k < |store.rows| && reservation == store.rows[k]
      modifies reservation`status
      ensures Valid()
      ensures store.Snapshot() == old(store.Snapshot())[k := old(store.Snapshot())[k].(status := CancelledStatus(old(reservation.status)))]
    {
      store.DistinctObjects();
      if reservation.IsBooked() {
        reservation.CancelBooking();
      } else {
        reservation.CancelWaiting();
      }
    }

    /** The promotion step on the stored objects. */
    method PromoteNext(slot: Slot)
      requires Valid()
      modifies store.rows
      ensures Valid()
      ensures store.Snapshot() == Promote(old(store.Snapshot()), slot)
    {
      if !ExistsBooked(store.Snapshot(), slot) {
        var first := store.FindFirstWaiting(slot);
        if first.Some? {
          ghost var j := FirstWaiting(store.Snapshot(), slot).value;
          store.DistinctObjects();
          first.value.Book();
        }
      }
    }

    /** cancelWaitingList: cancel a reservation in place and promote the
        next waiter of its slot when the slot is left without a booking. */
    method CancelWaitingList(memberId: nat, id: nat) returns (res: Result<()>)
      requires Valid()
      modifies store.rows
      ensures Valid() && store.rows == old(store.rows)
      ensures var spec := Cancel(old(store.Snapshot()), catalog, memberId, id);
              && (res.Ok? <==> spec.Ok?)
              && (spec.Ok? ==> store.Snapshot() == spec.value)
              && (spec.Err? ==> res == Err(spec.error) && store.Snapshot() == old(store.Snapshot()))
    {
      store.SnapshotWellNumbered();
      ghost var before := store.Snapshot();
      if memberId !in catalog.members {
        return Err(MemberNotFound);
      }
      var member := catalog.members[memberId];
      var found := store.GetById(id);
      if found.Err? {
        return Err(found.error);
      }
      var reservation := found.value;
      if reservation.IsNotModifiableBy(member) {
        return Err(NotModifiable);
      }
      ghost var target := before[id - 1];
      assert FindById(before, id) == Ok(target);
      CancelInPlace(reservation, id - 1);
      ghost var cancelled := before[id - 1 := target.(status := CancelledStatus(target.status))];
      assert store.Snapshot() == cancelled;
      PromoteNext(reservation.SlotOf());
      assert store.Snapshot() == Promote(cancelled, target.slot);
      return Ok(());
    }
  }
}
