/** The reservation record of the room-escape system: who holds which
    (theme, date, time) slot, when the request was made, and its status.
    The status is the one field that changes after construction. */
module Reservations {
  import opened Errors
  import opened Chrono

  datatype BookStatus = Booked | Waiting | BookingCancelled | WaitingCancelled

  /** A member, reduced to what the core reads of it: its id (the basis of
      its equality) and whether it is an administrator. */
  datatype Member = Member(id: nat, isAdmin: bool)

  /** A bookable time of day, known by its id. */
  datatype ReservationTime = ReservationTime(id: nat, startAt: TimeOfDay)

  /** A theme, known by its id. */
  datatype Theme = Theme(id: nat)

  /** The (theme, date, time) triple a reservation occupies. */
  datatype Slot = Slot(themeId: nat, date: Date, timeId: nat)

  /** The value of a persisted reservation: its id and every field. */
  datatype Row = Row(id: nat, member: Member, slot: Slot, createdAt: Instant, status: BookStatus)

  /** validateCreatedAtAfterReserveTime: a reservation may not be created
      after the instant its slot starts; creation at that very instant is
      allowed. */
  function CheckCreatedAt(date: Date, startAt: TimeOfDay, createdAt: Instant): (r: Option<Error>)
    ensures r.Some? <==> createdAt > At(date, startAt)
    ensures r.Some? ==> r.value == IllegalArgument(PastReservationMessage)
  {
    if IsBefore(At(date, startAt), createdAt) then Some(IllegalArgument(PastReservationMessage)) else None
  }

  /** A slot on a date before the day of `createdAt` is in the past, whatever
      its time of day. */
  lemma EarlierDateIsPast(date: Date, startAt: TimeOfDay, createdAt: Instant)
    requires date < DateOf(createdAt)
    ensures CheckCreatedAt(date, startAt, createdAt) == Some(IllegalArgument(PastReservationMessage))
  {
    assert (date + 1) * TicksPerDay <= DateOf(createdAt) * TicksPerDay;
  }

  /** A slot on a later date than `createdAt` is never in the past. */
  lemma LaterDateIsNotPast(date: Date, startAt: TimeOfDay, createdAt: Instant)
    requires DateOf(createdAt) < date
    ensures CheckCreatedAt(date, startAt, createdAt).None?
  {
    assert (DateOf(createdAt) + 1) * TicksPerDay <= date * TicksPerDay;
  }

  /** isNotModifiableBy, on the member asking and the owner: only the owner
      and administrators may change a reservation. */
  function CannotModify(m: Member, owner: Member): (r: bool)
    ensures !r <==> m.isAdmin || m.id == owner.id
  {
    !m.isAdmin && m.id != owner.id
  }

  /** java.lang.Long.hashCode: the two 32-bit halves of the 64-bit value
      xor-ed together, read as a signed 32-bit int. The id is first wrapped
      to 64 bits, as a Java long would be. */
  function LongHashCode(v: nat): (h: int)
    ensures -0x8000_0000 <= h < 0x8000_0000
    ensures v < 0x8000_0000 ==> h == v
  {
    var w := v % 0x1_0000_0000_0000_0000;
    var low := Xor(w % 0x1_0000_0000, w / 0x1_0000_0000) % 0x1_0000_0000;
    if low < 0x8000_0000 then low else low - 0x1_0000_0000
  }

  /** Bitwise exclusive or of two naturals, one binary digit at a time. */
  function Xor(a: nat, b: nat): (r: nat)
    ensures b == 0 ==> r == a
    ensures a == 0 ==> r == b
    decreases a + b
  {
    if a == 0 then b
    else if b == 0 then a
    else 2 * Xor(a / 2, b / 2) + (if a % 2 != b % 2 then 1 else 0)
  }

  class Reservation {
    var id: Option<nat>
    const member: Member
    const date: Date
    const time: ReservationTime
    const theme: Theme
    const createdAt: Instant
    var status: BookStatus

    /** The seven-argument constructor, on inputs it accepts. */
    constructor (id: Option<nat>, member: Member, date: Date, time: ReservationTime, theme: Theme,
                 createdAt: Instant, status: BookStatus)
      requires CheckCreatedAt(date, time.startAt, createdAt).None?
      ensures this.id == id && this.member == member && this.date == date && this.time == time
      ensures this.theme == theme && this.createdAt == createdAt && this.status == status
    {
      this.id := id;
      this.member := member;
      this.date := date;
      this.time := time;
      this.theme := theme;
      this.createdAt := createdAt;
      this.status := status;
    }

    /** The seven-argument constructor with its failure: it throws when the
        slot starts before `createdAt`, and otherwise stores every field as
        given. */
    static method CreateWithId(id: Option<nat>, member: Member, date: Date, time: ReservationTime,
                               theme: Theme, createdAt: Instant, status: BookStatus)
      returns (r: Result<Reservation>)
      ensures r.Err? <==> createdAt > At(date, time.startAt)
      ensures r.Err? ==> r.error == IllegalArgument(PastReservationMessage)
      ensures r.Ok? ==> fresh(r.value) && r.value.id == id && r.value.member == member
      ensures r.Ok? ==> r.value.date == date && r.value.time == time && r.value.theme == theme
      ensures r.Ok? ==> r.value.createdAt == createdAt && r.value.status == status
    {
      var failure := CheckCreatedAt(date, time.startAt, createdAt);
      if failure.Some? {
        return Err(failure.value);
      }
      var reservation := new Reservation(id, member, date, time, theme, createdAt, status);
      return Ok(reservation);
    }

    /** The six-argument constructor: as CreateWithId, with a null id. */
    static method Create(member: Member, date: Date, time: ReservationTime, theme: Theme,
                         createdAt: Instant, status: BookStatus)
      returns (r: Result<Reservation>)
      ensures r.Err? <==> createdAt > At(date, time.startAt)
      ensures r.Err? ==> r.error == IllegalArgument(PastReservationMessage)
      ensures r.Ok? ==> fresh(r.value) && r.value.id == None && r.value.member == member
      ensures r.Ok? ==> r.value.date == date && r.value.time == time && r.value.theme == theme
      ensures r.Ok? ==> r.value.createdAt == createdAt && r.value.status == status
    {
      r := CreateWithId(None, member, date, time, theme, createdAt, status);
    }

    /** The slot this reservation occupies. */
    function SlotOf(): Slot {
      Slot(theme.id, date, time.id)
    }

    /** The record's value, with `rowId` as its id. */
    function ToRow(rowId: nat): (row: Row)
      reads this`status
    {
      Row(rowId, member, SlotOf(), createdAt, status)
    }

    /** A reservation may be changed by its owner and by any administrator,
        and by nobody else. */
    function IsNotModifiableBy(m: Member): (r: bool)
      ensures r == CannotModify(m, member)
    {
      !m.isAdmin && IsNotOwnedBy(m)
    }

    /** Ownership is member equality, and members are equal by id: the
        owner is never "not the owner", whatever its other fields. */
    function IsNotOwnedBy(m: Member): (r: bool)
      ensures m == member ==> !r
      ensures !r <==> m.id == member.id
    {
      m.id != member.id
    }

    /** book(): BOOKED, whatever the status was. */
    method Book()
      modifies this`status
      ensures status == Booked && IsBooked()
    {
      status := Booked;
    }

    function IsBooked(): (r: bool)
      reads this`status
      ensures r <==> status == Booked
    {
      status == Booked
    }

    /** cancelWaiting(): WAITING_CANCELLED, whatever the status was. */
    method CancelWaiting()
      modifies this`status
      ensures status == WaitingCancelled && !IsBooked()
    {
      status := WaitingCancelled;
    }

    /** cancelBooking(): BOOKING_CANCELLED, whatever the status was. */
    method CancelBooking()
      modifies this`status
      ensures status == BookingCancelled && !IsBooked()
    {
      status := BookingCancelled;
    }

    /** equals: the same object, or the same id. Objects.equals makes two
        unsaved reservations (both ids null) equal. */
    function Equals(other: Reservation): (r: bool)
      reads this`id, other`id
      ensures id == other.id ==> r
      ensures r ==> HashCode() == other.HashCode()
    {
      this == other || id == other.id
    }

    /** hashCode: Objects.hashCode of the id, which is 0 for null. */
    function HashCode(): (h: int)
      reads this`id
      ensures -0x8000_0000 <= h < 0x8000_0000
      ensures id.None? ==> h == 0
      ensures id.Some? && id.value < 0x8000_0000 ==> h == id.value
    {
      match id
      case None => 0
      case Some(v) => LongHashCode(v)
    }
  }

  /** Equality looks at the ids alone: two reservations with the same id are
      equal whatever their members, slots, creation times and statuses, and
      equal reservations hash alike. */
  lemma EqualsIsById(a: Reservation, b: Reservation)
    ensures a.Equals(b) <==> a == b || a.id == b.id
    ensures a.id == b.id ==> a.Equals(b) && b.Equals(a)
    ensures a.Equals(b) ==> a.HashCode() == b.HashCode()
  {
  }
}
