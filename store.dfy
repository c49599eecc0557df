/** The reservation store: the persisted reservation objects, in insertion
    order. Saving assigns the next identity value; the engine changes a
    stored reservation by calling its transition methods on the object the
    store hands out. */
module ReservationStore {
  import opened Errors
  import opened Reservations
  import opened ReservationQueries

  /** The values of `rs`, the first one numbered `first`. */
  function RowsOf(rs: seq<Reservation>, first: nat): (s: seq<Row>)
    reads rs
    ensures |s| == |rs|
    ensures forall i :: 0 <= i < |rs| ==> s[i] == rs[i].ToRow(first + i)
    decreases |rs|
  {
    if rs == [] then [] else [rs[0].ToRow(first)] + RowsOf(rs[1..], first + 1)
  }

  class Store {
    var rows: seq<Reservation>

    /** The i-th stored object carries id i + 1, so no object is stored
        twice. */
    ghost predicate Valid()
      reads this, rows
    {
      forall i :: 0 <= i < |rows| ==> rows[i].id == Some(i + 1)
    }

    /** The stored values, in insertion order. */
    function Snapshot(): (s: seq<Row>)
      reads this, rows
      ensures |s| == |rows|
      ensures forall i :: 0 <= i < |rows| ==> s[i] == rows[i].ToRow(i + 1)
    {
      RowsOf(rows, 1)
    }

    lemma SnapshotWellNumbered()
      ensures WellNumbered(Snapshot())
    {
    }

    /** No object is stored twice. */
    lemma DistinctObjects()
      requires Valid()
      ensures forall i, j :: 0 <= i < |rows| && 0 <= j < |rows| && i != j ==> rows[i] != rows[j]
    {
    }

    constructor ()
      ensures Valid() && rows == []
    {
      rows := [];
    }

    /** save: a new reservation gets the next id and goes to the end. */
    method Save(r: Reservation)
      requires Valid() && r.id == None
      modifies this, r`id
      ensures Valid()
      ensures rows == old(rows) + [r]
      ensures r.id == Some(|rows|)
      ensures Snapshot() == old(Snapshot()) + [r.ToRow(|rows|)]
    {
      r.id := Some(|rows| + 1);
      rows := rows + [r];
    }

    /** getById: the stored object with that id, or NoSuchElement. */
    function GetById(id: nat): (r: Result<Reservation>)
      reads this, rows
      requires Valid()
      ensures r.Ok? <==> FindById(Snapshot(), id).Ok?
      ensures r.Ok? ==> r.value in rows && r.value.id == Some(id)
                        && r.value.ToRow(id) == FindById(Snapshot(), id).value
      ensures r.Err? ==> r.error == NoSuchElement(ReservationNotFoundMessage)
    {
      if 1 <= id <= |rows| then Ok(rows[id - 1]) else Err(NoSuchElement(ReservationNotFoundMessage))
    }

    /** findFirstWaiting: the stored object at the front of the slot's
        waiting queue. */
    function FindFirstWaiting(slot: Slot): (r: Option<Reservation>)
      reads this, rows
      ensures r.Some? <==> FirstWaiting(Snapshot(), slot).Some?
      ensures r.Some? ==> r.value == rows[FirstWaiting(Snapshot(), slot).value]
    {
      var k := FirstWaiting(Snapshot(), slot);
      if k.Some? then Some(rows[k.value]) else None
    }
  }
}
