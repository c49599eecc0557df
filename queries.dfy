/** Read-only queries over the stored reservations, given as the sequence of
    their values in insertion order: the repository's existence and filter
    queries, its lookup by id, and the slot-scoped waiting-queue queries. */
module ReservationQueries {
  import opened Errors
  import opened Chrono
  import opened Reservations

  /** The ids of the stored rows are 1, 2, 3, ... in insertion order, as an
      identity column assigns them. */
  ghost predicate WellNumbered(rows: seq<Row>) {
    forall i :: 0 <= i < |rows| ==> rows[i].id == i + 1
  }

  predicate WaitingIn(r: Row, slot: Slot) {
    r.slot == slot && r.status == Waiting
  }

  predicate IsActive(s: BookStatus) {
    s == Booked || s == Waiting
  }

  // ---------------------------------------------------------------------
  // ReservationJpaRepository

  /** getById: the stored reservation with that id, or NoSuchElement. */
  function FindById(rows: seq<Row>, id: nat): (r: Result<Row>)
    requires WellNumbered(rows)
    ensures r.Ok? <==> exists i :: 0 <= i < |rows| && rows[i].id == id
    ensures r.Ok? ==> r.value in rows && r.value.id == id
    ensures r.Err? ==> r.error == NoSuchElement(ReservationNotFoundMessage)
  {
    if 1 <= id <= |rows| then Ok(rows[id - 1]) else Err(NoSuchElement(ReservationNotFoundMessage))
  }

  /** existsByDateAndTimeIdAndThemeId: some stored reservation, of any
      status, has this date, time and theme. */
  function ExistsByDateAndTimeIdAndThemeId(rows: seq<Row>, date: Date, timeId: nat, themeId: nat): (b: bool)
    ensures b <==> exists r :: r in rows && r.slot.date == date && r.slot.timeId == timeId && r.slot.themeId == themeId
  {
    exists i :: 0 <= i < |rows| && rows[i].slot == Slot(themeId, date, timeId)
  }

  /** existsByTimeId. */
  function ExistsByTimeId(rows: seq<Row>, timeId: nat): (b: bool)
    ensures b <==> exists r :: r in rows && r.slot.timeId == timeId
  {
    exists i :: 0 <= i < |rows| && rows[i].slot.timeId == timeId
  }

  /** existsByThemeId. */
  function ExistsByThemeId(rows: seq<Row>, themeId: nat): (b: bool)
    ensures b <==> exists r :: r in rows && r.slot.themeId == themeId
  {
    exists i :: 0 <= i < |rows| && rows[i].slot.themeId == themeId
  }

  /** findAllByMemberId: exactly the stored reservations of that member, in
      storage order. */
  function FindAllByMemberId(rows: seq<Row>, memberId: nat): (found: seq<Row>)
    ensures |found| <= |rows|
    ensures forall r :: r in found <==> r in rows && r.member.id == memberId
    ensures forall r :: multiset(found)[r] == if r.member.id == memberId then multiset(rows)[r] else 0
    decreases |rows|
  {
    if rows == [] then []
    else
      assert rows == [rows[0]] + rows[1..];
      var rest := FindAllByMemberId(rows[1..], memberId);
      if rows[0].member.id == memberId then [rows[0]] + rest else rest
  }

  /** The lookups by slot, time and theme read no status: changing statuses
      alone never changes their answers, so cancelled reservations still
      count as references. */
  lemma ExistenceIgnoresStatus(rows: seq<Row>, rows': seq<Row>, date: Date, timeId: nat, themeId: nat)
    requires |rows'| == |rows|
    requires forall i :: 0 <= i < |rows| ==> rows'[i] == rows[i].(status := rows'[i].status)
    ensures ExistsByDateAndTimeIdAndThemeId(rows', date, timeId, themeId)
            == ExistsByDateAndTimeIdAndThemeId(rows, date, timeId, themeId)
    ensures ExistsByTimeId(rows', timeId) == ExistsByTimeId(rows, timeId)
    ensures ExistsByThemeId(rows', themeId) == ExistsByThemeId(rows, themeId)
  {
    if ExistsByTimeId(rows, timeId) {
      var r :| r in rows && r.slot.timeId == timeId;
      var i :| 0 <= i < |rows| && rows[i] == r;
      assert rows'[i].slot.timeId == timeId;
    }
    if ExistsByTimeId(rows', timeId) {
      var r :| r in rows' && r.slot.timeId == timeId;
      var i :| 0 <= i < |rows'| && rows'[i] == r;
      assert rows[i].slot.timeId == timeId;
    }
    if ExistsByThemeId(rows, themeId) {
      var r :| r in rows && r.slot.themeId == themeId;
      var i :| 0 <= i < |rows| && rows[i] == r;
      assert rows'[i].slot.themeId == themeId;
    }
    if ExistsByThemeId(rows', themeId) {
      var r :| r in rows' && r.slot.themeId == themeId;
      var i :| 0 <= i < |rows'| && rows'[i] == r;
      assert rows[i].slot.themeId == themeId;
    }
  }

  // ---------------------------------------------------------------------
  // Slot-scoped waiting queries (ReservationStatusJpaRepository)

  /** findFirstWaitingBy: the index of a WAITING reservation of the slot
      with the smallest creation time, present whenever the slot has a
      WAITING reservation. Equal creation times are allowed; the contract
      does not say which of the tied reservations is returned. */
  function FirstWaiting(rows: seq<Row>, slot: Slot): (k: Option<nat>)
    ensures k.Some? ==> k.value < |rows| && WaitingIn(rows[k.value], slot)
    ensures k.Some? ==> forall j :: 0 <= j < |rows| && WaitingIn(rows[j], slot) ==>
                                      rows[k.value].createdAt <= rows[j].createdAt
    ensures k.None? <==> forall j :: 0 <= j < |rows| ==> !WaitingIn(rows[j], slot)
    decreases |rows|
  {
    if rows == [] then None
    else
      var n := |rows| - 1;
      var k := FirstWaiting(rows[..n], slot);
      if WaitingIn(rows[n], slot) && (k.None? || rows[n].createdAt < rows[k.value].createdAt)
      then Some(n)
      else k
  }

  /** The slot has a BOOKED reservation. */
  predicate ExistsBooked(rows: seq<Row>, slot: Slot) {
    exists i :: 0 <= i < |rows| && rows[i].slot == slot && rows[i].status == Booked
  }

  /** The member holds a BOOKED or WAITING reservation of the slot. */
  predicate HasActive(rows: seq<Row>, memberId: nat, slot: Slot) {
    exists i :: 0 <= i < |rows| && rows[i].slot == slot && rows[i].member.id == memberId && IsActive(rows[i].status)
  }

  /** Row k is a waiter of the slot that no waiter of the slot precedes in
      creation time. */
  ghost predicate IsEarliestWaiter(rows: seq<Row>, slot: Slot, k: nat) {
    k < |rows| && WaitingIn(rows[k], slot)
    && forall j :: 0 <= j < |rows| && WaitingIn(rows[j], slot) ==> rows[k].createdAt <= rows[j].createdAt
  }

  /** The number of WAITING reservations of the slot. */
  function CountWaiting(rows: seq<Row>, slot: Slot): (c: nat)
    ensures c <= |rows|
    ensures c == 0 <==> forall i :: 0 <= i < |rows| ==> !WaitingIn(rows[i], slot)
    decreases |rows|
  {
    if rows == [] then 0
    else
      var n := |rows| - 1;
      CountWaiting(rows[..n], slot) + (if WaitingIn(rows[n], slot) then 1 else 0)
  }

  /** getWaitingCount: the number of WAITING reservations of the slot
      created strictly before `t`, that is the queue position of a waiter
      created at `t`. */
  function WaitingCount(rows: seq<Row>, slot: Slot, t: Instant): (c: nat)
    ensures c <= CountWaiting(rows, slot)
    decreases |rows|
  {
    if rows == [] then 0
    else
      var n := |rows| - 1;
      WaitingCount(rows[..n], slot, t) + (if WaitingIn(rows[n], slot) && rows[n].createdAt < t then 1 else 0)
  }

  /** The indices of the slot's WAITING reservations created before `t`. */
  ghost function EarlierWaiters(rows: seq<Row>, slot: Slot, t: Instant): set<nat> {
    set i: nat | i < |rows| && WaitingIn(rows[i], slot) && rows[i].createdAt < t
  }

  /** The indices of the slot's WAITING reservations. */
  ghost function Waiters(rows: seq<Row>, slot: Slot): set<nat> {
    set i: nat | i < |rows| && WaitingIn(rows[i], slot)
  }

  /** getWaitingCount counts exactly the slot's WAITING reservations created
      strictly before `t`: no other slot, no other status, and not the ones
      created at `t` itself. */
  lemma {:induction false} WaitingCountIsEarlierWaiters(rows: seq<Row>, slot: Slot, t: Instant)
    ensures WaitingCount(rows, slot, t) == |EarlierWaiters(rows, slot, t)|
    decreases |rows|
  {
    if rows != [] {
      var n := |rows| - 1;
      WaitingCountIsEarlierWaiters(rows[..n], slot, t);
      var before := EarlierWaiters(rows[..n], slot, t);
      if WaitingIn(rows[n], slot) && rows[n].createdAt < t {
        assert EarlierWaiters(rows, slot, t) == before + {n};
      } else {
        assert EarlierWaiters(rows, slot, t) == before;
      }
    }
  }

  /** The waiting count of a slot counts exactly its WAITING reservations. */
  lemma {:induction false} CountWaitingIsWaiters(rows: seq<Row>, slot: Slot)
    ensures CountWaiting(rows, slot) == |Waiters(rows, slot)|
    decreases |rows|
  {
    if rows != [] {
      var n := |rows| - 1;
      CountWaitingIsWaiters(rows[..n], slot);
      var before := Waiters(rows[..n], slot);
      if WaitingIn(rows[n], slot) {
        assert Waiters(rows, slot) == before + {n};
      } else {
        assert Waiters(rows, slot) == before;
      }
    }
  }

  /** Queue positions are ranks within the queue: no waiter has more waiters
      ahead of it than the queue holds besides itself, and the front of the
      queue has position 0. */
  lemma RankWithinQueue(rows: seq<Row>, slot: Slot, k: nat)
    requires k < |rows| && WaitingIn(rows[k], slot)
    ensures WaitingCount(rows, slot, rows[k].createdAt) < CountWaiting(rows, slot)
    ensures FirstWaiting(rows, slot) == Some(k) ==> WaitingCount(rows, slot, rows[k].createdAt) == 0
  {
    WaitingCountIsEarlierWaiters(rows, slot, rows[k].createdAt);
    CountWaitingIsWaiters(rows, slot);
    var earlier := EarlierWaiters(rows, slot, rows[k].createdAt);
    var all := Waiters(rows, slot);
    assert earlier <= all - {k};
    SubsetSize(earlier, all - {k});
    if FirstWaiting(rows, slot) == Some(k) {
      assert earlier == {};
    }
  }

  lemma {:induction false} SubsetSize(a: set<nat>, b: set<nat>)
    requires a <= b
    ensures |a| <= |b|
  {
    if a != {} {
      var x :| x in a;
      SubsetSize(a - {x}, b - {x});
    }
  }

  /** A queue listed in creation order with distinct creation times: the
      waiter at index k has exactly k waiters ahead of it, and the first
      one is the front of the queue. */
  lemma {:induction false} RankInOrderedQueue(rows: seq<Row>, slot: Slot, k: nat)
    requires forall i :: 0 <= i < |rows| ==> WaitingIn(rows[i], slot)
    requires forall i, j :: 0 <= i < j < |rows| ==> rows[i].createdAt < rows[j].createdAt
    requires k < |rows|
    ensures WaitingCount(rows, slot, rows[k].createdAt) == k
    decreases |rows|
  {
    var n := |rows| - 1;
    if k < n {
      RankInOrderedQueue(rows[..n], slot, k);
    } else {
      AllEarlier(rows[..n], slot, rows[k].createdAt);
    }
  }

  /** When every row is a waiter of the slot created before `t`, all of them
      count. */
  lemma {:induction false} AllEarlier(rows: seq<Row>, slot: Slot, t: Instant)
    requires forall i :: 0 <= i < |rows| ==> WaitingIn(rows[i], slot) && rows[i].createdAt < t
    ensures WaitingCount(rows, slot, t) == |rows|
    decreases |rows|
  {
    if rows != [] {
      AllEarlier(rows[..|rows| - 1], slot, t);
    }
  }

  /** Both waiting queries look at the requested slot only: a reservation of
      another slot changes neither answer. */
  lemma OtherSlotIgnored(rows: seq<Row>, r: Row, slot: Slot, t: Instant)
    requires r.slot != slot
    ensures FirstWaiting(rows + [r], slot) == FirstWaiting(rows, slot)
    ensures WaitingCount(rows + [r], slot, t) == WaitingCount(rows, slot, t)
    ensures CountWaiting(rows + [r], slot) == CountWaiting(rows, slot)
  {
    assert (rows + [r])[..|rows|] == rows;
  }

  /** Appending a reservation of the slot: a waiter is counted once more,
      anything else changes no count. */
  lemma CountAfterAppend(rows: seq<Row>, r: Row, slot: Slot)
    ensures CountWaiting(rows + [r], slot) == CountWaiting(rows, slot) + (if WaitingIn(r, slot) then 1 else 0)
  {
    assert (rows + [r])[..|rows|] == rows;
  }

  /** Changing one reservation's status to a non-waiting one never lengthens
      a queue. */
  lemma {:induction false} CountAfterLeaving(rows: seq<Row>, k: nat, s: BookStatus, slot: Slot)
    requires k < |rows| && s != Waiting
    ensures CountWaiting(rows[k := rows[k].(status := s)], slot) <= CountWaiting(rows, slot)
    decreases |rows|
  {
    var rows' := rows[k := rows[k].(status := s)];
    var n := |rows| - 1;
    if k < n {
      CountAfterLeaving(rows[..n], k, s, slot);
      assert rows'[..n] == rows[..n][k := rows[k].(status := s)];
    } else {
      assert rows'[..n] == rows[..n];
    }
  }
}
