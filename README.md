# Room-escape reservations: a verified model

This project models the reservation lifecycle of a room-escape booking
service, in Dafny.

- **Reservations.** A member books a slot, which is a (theme, date, time)
  triple. Once a slot is booked, further members join its waiting list, up
  to five of them.
- **Cancelling.** Cancelling a reservation hands the slot to the earliest
  waiter when the slot has no booking left.
- **Records.** A reservation record refuses to be created after its slot
  has started. Its status is the one field that changes later.
- **Queries.** The store answers lookups by id, member, time, theme and
  slot, and the slot's waiting-queue queries.
- **Credentials.** Member e-mail addresses and passwords are validated
  when they are made.

The files and their modules:

- `errors.dfy` (`Errors`): `Option`, `Result` and the exceptions the
  system throws, with their messages.
- `chrono.dfy` (`Chrono`): dates as day numbers and instants as
  nanosecond ticks. `At(date, time)` is the instant a slot starts.
- `reservation.dfy` (`Reservations`): the value types, the creation-time
  check, the modify permission, and the class `Reservation`.
  - `Reservation` has a mutable `id`, assigned on save, and a mutable
    `status`. Every other field is a `const`.
- `queries.dfy` (`ReservationQueries`): the repository queries, as
  functions over the stored values in insertion order (`seq<Row>`).
  - `FindById` and the existence and filter lookups.
  - `FirstWaiting`, which is `findFirstWaitingBy`.
  - `WaitingCount`, which is `getWaitingCount`.
  - `CountWaiting`, the size of a slot's queue.
- `store.dfy` (`ReservationStore`): the class `Store`, which holds the
  stored `Reservation` objects.
  - `Save` gives a new reservation the next id.
  - `GetById` and `FindFirstWaiting` hand out the stored objects
    themselves, so a transition called on them changes the store.
- `booking.dfy` (`Booking`): the booking service.
  - `Book`, `Enqueue` and `Cancel` (with its promotion step `Promote`) are
    defined first as functions from the stored values before to the values
    after, or to an error.
  - The class `Service` carries them out on a `Store`:
    `BookReservation`, `EnqueueWaitingList` and `CancelWaitingList`. Each
    method is proved to leave exactly the state its function describes.
- `booking_properties.dfy` (`BookingProperties`): properties that span
  several calls.
  - The engine invariant: ids 1, 2, 3, …, at most one BOOKED reservation
    per slot, at most five WAITING ones, and no member with two active
    reservations of one slot. `Book`, `Enqueue` and
    `Cancel` each preserve it.
  - How a cancellation moves the queue.
  - Each scenario the repository's service and repository tests assert,
    as a lemma on concrete data.
- `credentials.dfy` (`Credentials`): `Email` and `Password`.

Decisions the model makes explicit:

- **The clock is a parameter.** The current instant `now` is passed in.
  The repository's tests book dates in 2023 and 2024, and refuse
  1999-12-31. So each scenario lemma states the range of `now` it needs.
- **Creation at the start instant is allowed.** A reservation may be
  created at exactly the instant its slot starts, but not one tick later.
- **The record's transitions are unconditional.** `Book`, `CancelWaiting`
  and `CancelBooking` overwrite the status whatever it was.
- **A cancellation picks its transition by status.** It calls
  `CancelBooking` on a BOOKED reservation and `CancelWaiting` on any
  other.
- **A cancellation promotes only into an unbooked slot.** A waiter is
  moved up only when the slot has no BOOKED reservation afterwards. This
  holds whether the cancelled reservation was booked or waiting.
- **Creation times may tie.** The queue order is by creation time alone.
  Among tied waiters the model does not say which comes first.
  - A tie-break by id appears in none of the code modelled here. The
    queries behind `findFirstWaitingBy` and `getWaitingCount` are not
    shown, and no test depends on the order of tied waiters.
- **A member holds at most one active reservation of a slot.** Joining
  the queue of a slot the member already books or waits for is refused,
  and so is booking a slot the member already waits for. `Book`,
  `Enqueue` and `Cancel` preserve this, as part of the engine invariant.
- **Cancelling twice is not guarded.** A second cancellation of a
  BOOKING_CANCELLED reservation rewrites it as WAITING_CANCELLED, since
  only a BOOKED reservation gets `CancelBooking`.

## Model

| member | source | states |
|---|---|---|
| Chrono.AtOrder | src/main/java/roomescape/domain/reservation/Reservation.java:69-71 | One slot instant is before another iff its date is earlier, or the dates are equal and its time of day is earlier. |
| Reservations.CheckCreatedAt | src/main/java/roomescape/domain/reservation/Reservation.java:69-74 | Creation fails exactly when `createdAt` is strictly after the slot's start instant, and then with IllegalArgument("현재 시간보다 과거로 예약할 수 없습니다."). |
| Reservations.EarlierDateIsPast | src/main/java/roomescape/domain/reservation/Reservation.java:69-74 | A slot on a day before the day of `createdAt` is refused, whatever its time of day. |
| Reservations.LaterDateIsNotPast | src/main/java/roomescape/domain/reservation/Reservation.java:69-74 | A slot on a day after the day of `createdAt` is accepted, whatever its time of day. |
| Reservations.Reservation.constructor | src/main/java/roomescape/domain/reservation/Reservation.java:52-62 | On an accepted creation time, every field is stored as given. |
| Reservations.Reservation.CreateWithId | src/main/java/roomescape/domain/reservation/Reservation.java:52-62 | Fails iff the creation time is after the slot start, with the past-reservation error. Otherwise it returns a fresh record holding id, member, date, time, theme, createdAt and status as given. |
| Reservations.Reservation.Create | src/main/java/roomescape/domain/reservation/Reservation.java:64-67 | As CreateWithId, with the id left empty (null). |
| Reservations.CannotModify | src/main/java/roomescape/domain/reservation/Reservation.java:76-82 | A member may modify a reservation iff the member is an administrator or the reservation's owner (owners compared by member id). |
| Reservations.Reservation.IsNotModifiableBy | src/main/java/roomescape/domain/reservation/Reservation.java:76-78 | The record's answer is CannotModify of the asking member and the record's own member. |
| Reservations.Reservation.Book | src/main/java/roomescape/domain/reservation/Reservation.java:84-86 | The status becomes BOOKED and IsBooked holds, whatever the status was. Only the status may change (`modifies this`status`). |
| Reservations.Reservation.IsBooked | src/main/java/roomescape/domain/reservation/Reservation.java:88-90 | True iff the status is BOOKED. |
| Reservations.Reservation.CancelWaiting | src/main/java/roomescape/domain/reservation/Reservation.java:92-94 | The status becomes WAITING_CANCELLED and IsBooked is false, whatever the status was. Only the status changes. |
| Reservations.Reservation.CancelBooking | src/main/java/roomescape/domain/reservation/Reservation.java:96-98 | The status becomes BOOKING_CANCELLED and IsBooked is false, whatever the status was. Only the status changes. |
| Reservations.LongHashCode | src/main/java/roomescape/domain/reservation/Reservation.java:111-114 | The hash of a (64-bit) id is a signed 32-bit value, and an id below 2^31 hashes to itself. |
| Reservations.Reservation.IsNotOwnedBy | src/main/java/roomescape/domain/reservation/Reservation.java:80-82 | A member is the owner iff it has the owner's id, so the owner itself is never "not the owner". |
| Reservations.Reservation.Equals | src/main/java/roomescape/domain/reservation/Reservation.java:100-109 | Records with the same id (both null included) are equal, and equal records have the same hashCode. |
| Reservations.Reservation.HashCode | src/main/java/roomescape/domain/reservation/Reservation.java:111-114 | A signed 32-bit value: 0 for an unsaved record, and the id itself for an id below 2^31. |
| Reservations.EqualsIsById | src/main/java/roomescape/domain/reservation/Reservation.java:100-114 | Two records are equal iff they are the same object or have the same id, whatever their other fields. Equal ids give equality both ways, and equal records hash alike. |
| ReservationQueries.FindById | src/main/java/roomescape/infrastructure/reservation/ReservationJpaRepository.java:32-35 | Found iff some stored reservation has the id, and then it is that stored reservation. Otherwise NoSuchElement("존재하지 않는 예약입니다."). |
| ReservationQueries.ExistsByDateAndTimeIdAndThemeId | src/main/java/roomescape/infrastructure/reservation/ReservationJpaRepository.java:26-27 | True iff some stored reservation, of any status, has that date, time id and theme id. |
| ReservationQueries.ExistsByTimeId | src/main/java/roomescape/infrastructure/reservation/ReservationJpaRepository.java:20-21 | True iff some stored reservation references the time. |
| ReservationQueries.ExistsByThemeId | src/main/java/roomescape/infrastructure/reservation/ReservationJpaRepository.java:23-24 | True iff some stored reservation references the theme. |
| ReservationQueries.FindAllByMemberId | src/main/java/roomescape/infrastructure/reservation/ReservationJpaRepository.java:17-18 | The result holds exactly the stored reservations of that member, each as many times as it is stored, and reservations of other members not at all. It is no longer than the store. |
| ReservationQueries.ExistenceIgnoresStatus | src/main/java/roomescape/infrastructure/reservation/ReservationJpaRepository.java:20-27 | Changing statuses alone never changes the slot, time or theme existence answers. |
| ReservationQueries.FirstWaiting | src/test/java/roomescape/infrastructure/reservation/ReservationStatusJpaRepositoryTest.java:46-64 | The result is a WAITING reservation of the slot with the smallest creation time. It is present iff the slot has a WAITING reservation. |
| ReservationQueries.WaitingCount | src/test/java/roomescape/infrastructure/reservation/ReservationStatusJpaRepositoryTest.java:68-84 | A waiter's position never exceeds the size of its slot's queue. |
| ReservationQueries.CountWaiting | src/test/java/roomescape/application/reservation/ReservationWaitingServiceTest.java:113-134 | The queue size is at most the number of stored reservations, and it is 0 iff the slot has no WAITING reservation. |
| ReservationQueries.WaitingCountIsEarlierWaiters | src/test/java/roomescape/infrastructure/reservation/ReservationStatusJpaRepositoryTest.java:68-84 | getWaitingCount(slot, t) is the number of the slot's WAITING reservations created strictly before t. |
| ReservationQueries.CountWaitingIsWaiters | src/test/java/roomescape/application/reservation/ReservationWaitingServiceTest.java:115-134 | The queue size of a slot is the number of its WAITING reservations. |
| ReservationQueries.RankWithinQueue | src/test/java/roomescape/infrastructure/reservation/ReservationStatusJpaRepositoryTest.java:68-84 | A waiter's position is below the queue size, and the first waiter has position 0. |
| ReservationQueries.RankInOrderedQueue | src/test/java/roomescape/infrastructure/reservation/ReservationStatusJpaRepositoryTest.java:68-84 | In a queue stored in strictly increasing creation order, the k-th waiter has exactly k waiters ahead. A waiter created exactly at t is not counted. |
| ReservationQueries.OtherSlotIgnored | src/test/java/roomescape/infrastructure/reservation/ReservationStatusJpaRepositoryTest.java:58-81 | A reservation of another slot changes neither the first waiter, nor the position count, nor the queue size. |
| ReservationQueries.CountAfterLeaving | src/main/java/roomescape/domain/reservation/Reservation.java:84-98 | Moving a reservation to a status other than WAITING never lengthens a queue. |
| ReservationStore.Store.Save | src/test/java/roomescape/application/reservation/ReservationWaitingServiceTest.java:83-86 | The reservation goes at the end of the store and gets the next id. The stored values are the old ones plus its value. |
| ReservationStore.Store.GetById | src/main/java/roomescape/infrastructure/reservation/ReservationJpaRepository.java:32-35 | Returns the stored object with that id exactly when FindById finds one, and its value is FindById's. Otherwise the not-found error. |
| ReservationStore.Store.FindFirstWaiting | src/test/java/roomescape/application/reservation/ReservationWaitingServiceTest.java:64-68 | Returns the stored object at FirstWaiting's index, present iff FirstWaiting is. |
| Booking.Resolve | src/test/java/roomescape/application/reservation/ReservationServiceTest.java:65-93 | Succeeds iff member, time and theme all exist. Otherwise it fails with the member error, then NoSuchElement("존재하지 않는 예약 시간입니다."), then NoSuchElement("존재하지 않는 테마입니다."), in that order. |
| Booking.Book | src/test/java/roomescape/application/reservation/ReservationServiceTest.java:46-111 | Succeeds iff the lookups succeed, the slot has not started and has no BOOKED reservation. Success appends one BOOKED reservation created at `now` with the next id. Each failure's error is stated; a BOOKED reservation of the slot, or an active one of the member, gives DuplicatedReservation. |
| Booking.ResolvedSlotIsRequested | src/test/java/roomescape/application/reservation/ReservationServiceTest.java:46-61 | When every catalog entity is filed under its own id, a resolved request occupies exactly the (theme, date, time) it names. |
| Booking.Enqueue | src/test/java/roomescape/application/reservation/ReservationWaitingServiceTest.java:53-134 | Succeeds iff the lookups succeed, the slot has not started, the member holds no BOOKED or WAITING reservation of it, and fewer than 5 wait. Success appends one WAITING reservation. Otherwise DuplicatedReservation or WaitingListExceeded, in that order. |
| Booking.Promote | src/test/java/roomescape/application/reservation/ReservationWaitingServiceTest.java:71-92 | Only statuses change. Nothing changes when the slot is booked or has no waiter. Otherwise exactly an earliest waiter of the slot becomes BOOKED. |
| Booking.CancelledStatus | src/main/java/roomescape/domain/reservation/Reservation.java:84-98 | A cancelled reservation is neither BOOKED nor WAITING, and it is BOOKING_CANCELLED iff it was BOOKED. |
| Booking.Cancel | src/test/java/roomescape/application/reservation/ReservationWaitingServiceTest.java:71-92 | Succeeds iff the member and the reservation exist and the member is an administrator or the owner. Success cancels it and promotes in its slot. Otherwise MemberNotFound, NoSuchElement or NotModifiable. |
| Booking.Service.BookReservation | src/test/java/roomescape/application/reservation/ReservationServiceTest.java:46-61 | The store afterwards is exactly Book of the store before, and the result is the new id. On failure the store is unchanged and the error is Book's. |
| Booking.Service.EnqueueWaitingList | src/test/java/roomescape/application/reservation/ReservationWaitingServiceTest.java:55-69 | The store afterwards is exactly Enqueue of the store before, and the result is the new id. On failure the store is unchanged and the error is Enqueue's. |
| Booking.Service.CancelInPlace | src/test/java/roomescape/application/reservation/ReservationWaitingServiceTest.java:88 | The stored reservation's status becomes CancelledStatus of its old one. No other stored value changes. |
| Booking.Service.PromoteNext | src/test/java/roomescape/application/reservation/ReservationWaitingServiceTest.java:88-91 | The stored values afterwards are Promote of those before. |
| Booking.Service.CancelWaitingList | src/test/java/roomescape/application/reservation/ReservationWaitingServiceTest.java:88-91 | The same objects stay stored, and their values afterwards are exactly Cancel of those before. On failure nothing changes and the error is Cancel's. |
| BookingProperties.EmptyStoreKeepsInvariant | src/test/java/roomescape/application/reservation/ReservationServiceTest.java:46-61 | The empty store satisfies the engine invariant. |
| BookingProperties.BookKeepsInvariant | src/test/java/roomescape/application/reservation/ReservationServiceTest.java:46-61 | A successful booking keeps ids consecutive, at most one BOOKED per slot, at most 5 WAITING per slot and at most one active reservation per member and slot. |
| BookingProperties.EnqueueKeepsInvariant | src/test/java/roomescape/application/reservation/ReservationWaitingServiceTest.java:115-134 | A successful enqueue keeps the engine invariant, the capacity bound included. |
| BookingProperties.LeavingKeepsInvariant | src/main/java/roomescape/domain/reservation/Reservation.java:92-98 | Cancelling one reservation keeps the invariant and changes nothing but its status. |
| BookingProperties.PromoteKeepsInvariant | src/test/java/roomescape/application/reservation/ReservationWaitingServiceTest.java:88-91 | Promotion keeps the invariant and changes statuses only. |
| BookingProperties.CancelKeepsInvariant | src/test/java/roomescape/application/reservation/ReservationWaitingServiceTest.java:71-92 | A successful cancellation keeps the invariant and changes statuses only. |
| BookingProperties.AllWaitersAhead | src/test/java/roomescape/infrastructure/reservation/ReservationStatusJpaRepositoryTest.java:68-84 | When every waiter of the slot was created before t, all of them are ahead of a waiter created at t. |
| BookingProperties.CountAfterCancellingWaiter | src/main/java/roomescape/domain/reservation/Reservation.java:92-98 | Cancelling a waiter shortens its queue by exactly one. |
| BookingProperties.EnqueueJoinsBackOfQueue | src/test/java/roomescape/application/reservation/ReservationWaitingServiceTest.java:55-69 | After an enqueue the queue is one longer and the new waiter has every earlier waiter ahead of it. On an empty queue it becomes the first waiter, owned by the requester. |
| BookingProperties.CapacityDecidesEnqueue | src/test/java/roomescape/application/reservation/ReservationWaitingServiceTest.java:115-134 | For a member holding nothing in the slot, a queue of 5 gives WaitingListExceeded and a queue of 4 accepts. |
| BookingProperties.BookedSlotIsTaken | src/test/java/roomescape/application/reservation/ReservationServiceTest.java:46-61 | After a booking, booking the same slot again, by any member, fails with DuplicatedReservation. |
| BookingProperties.CancellingTheBookingFreesSlot | src/test/java/roomescape/application/reservation/ReservationWaitingServiceTest.java:88-91 | Under the invariant, cancelling the booked reservation leaves its slot with no BOOKED reservation and the same waiters. |
| BookingProperties.CancelBookingPromotesEarliestWaiter | src/test/java/roomescape/application/reservation/ReservationWaitingServiceTest.java:71-92 | Cancelling the booking of a slot with waiters books an earliest of them and changes nothing else. The slot stays booked. |
| BookingProperties.CancelBookingWithoutWaitersFreesSlot | src/test/java/roomescape/application/reservation/ReservationWaitingServiceTest.java:71-92 | Cancelling the booking of a slot nobody waits for only cancels it, and the slot is left unbooked. |
| BookingProperties.CancelWaiterBehindBooking | src/test/java/roomescape/application/reservation/ReservationWaitingServiceTest.java:71-92 | Cancelling a waiter of a booked slot promotes nobody and shortens the queue by one. |
| BookingProperties.StillBooked | src/test/java/roomescape/application/reservation/ReservationWaitingServiceTest.java:88-91 | A booked slot stays booked when one of its waiters leaves, and promotion then changes nothing. |
| BookingProperties.CancelWaiterPromotesNextWaiter | src/test/java/roomescape/application/reservation/ReservationWaitingServiceTest.java:79-91 | Cancelling a waiter of an unbooked slot with other waiters books an earliest remaining waiter, and nothing else changes. |
| BookingProperties.ValidRequestIsBooked | src/test/java/roomescape/application/reservation/ReservationServiceTest.java:46-61 | On an empty store, a request for 2024-01-01 noon gives a store of exactly one BOOKED reservation. |
| BookingProperties.UnknownTimeOrThemeIsRejected | src/test/java/roomescape/application/reservation/ReservationServiceTest.java:65-93 | Time id 99 fails with "존재하지 않는 예약 시간입니다.". Theme id 99 fails with "존재하지 않는 테마입니다.". |
| BookingProperties.PastRequestIsRejected | src/test/java/roomescape/application/reservation/ReservationServiceTest.java:97-111 | A request for 1999-12-31 noon, after that instant, fails with "현재 시간보다 과거로 예약할 수 없습니다.". |
| BookingProperties.QueueingMakesFirstWaiter | src/test/java/roomescape/application/reservation/ReservationWaitingServiceTest.java:55-69 | Enqueueing on an empty store succeeds, and the requester owns the slot's first waiter. |
| BookingProperties.CancellingFirstWaiterBooksNext | src/test/java/roomescape/application/reservation/ReservationWaitingServiceTest.java:73-92 | With two waiters (1999-01-01, 1999-01-03) and no booking, the owner cancelling the first books the second. |
| BookingProperties.HolderCannotQueue | src/test/java/roomescape/application/reservation/ReservationWaitingServiceTest.java:94-111 | A member holding a BOOKED or a WAITING reservation of the slot gets DuplicatedReservation on enqueue. |
| BookingProperties.WaiterCannotAlsoBook | src/test/java/roomescape/application/reservation/ReservationWaitingServiceTest.java:94-111 | A member waiting for an unbooked slot gets DuplicatedReservation when booking it, as a holder does when queueing. |
| BookingProperties.FullQueueRejectsNewWaiter | src/test/java/roomescape/application/reservation/ReservationWaitingServiceTest.java:115-134 | One booking and five waiters with the same creation time make a full queue, and a new member gets WaitingListExceeded. |
| BookingProperties.TenWaitersQueue | src/test/java/roomescape/infrastructure/reservation/ReservationStatusJpaRepositoryTest.java:46-84 | With waiters created on 2023-01-01 … 2023-01-10 at noon, the first waiter is the 2023-01-01 one. Four waiters are ahead of the 2023-01-05 noon instant. |
| Credentials.NewEmail | src/main/java/roomescape/domain/member/Email.java:18-42 | Accepted iff the address is present, its length is at most 50 and it matches the pattern, and then it is kept as given. The length error comes iff it is over 50. The required error comes iff it is null, or blank within 50. The malformed error comes iff it is within 50, not blank and does not match. |
| Credentials.MatchesAddressPattern | src/main/java/roomescape/domain/member/Email.java:30-36 | A matching address has at least five characters and starts and ends with a word character. |
| Credentials.GetAddress | src/main/java/roomescape/domain/member/Email.java:44-46 | The address of an accepted e-mail validates again to the same e-mail. |
| Credentials.IsBlank | src/main/java/roomescape/domain/member/Email.java:38-42 | Blank iff every character of the string is Java white space (the empty string included). |
| Credentials.Utf16Length | src/main/java/roomescape/domain/member/Email.java:24-28 | The Java length is between the character count and twice it, and equals the character count iff every character is in the Basic Multilingual Plane. |
| Credentials.PatternIsNotBlank | src/main/java/roomescape/domain/member/Email.java:30-42 | An address matching the pattern is not blank. |
| Credentials.AddressShape | src/main/java/roomescape/domain/member/Email.java:10 | An address matching `^\w+@\w+\.\w+$` has exactly one '@' and one '.', the '.' after the '@'. It is ASCII, so its Java length is its character count. |
| Credentials.EmailKeepsAddress | src/main/java/roomescape/domain/member/Email.java:44-58 | getAddress returns the accepted address, and two e-mails are equal iff their addresses are. |
| Credentials.NewPassword | src/main/java/roomescape/domain/member/Password.java:13-32 | Accepted iff present, not blank and 8 to 20 long, and then kept as given. Null or blank gives the required error, whatever the length. Any other out-of-bounds length gives the length error. |
| Credentials.Matches | src/main/java/roomescape/domain/member/Password.java:35-37 | True iff the other string is present and equals the stored password. |
| Credentials.PasswordMatchesItsSource | src/main/java/roomescape/domain/member/Password.java:35-53 | An accepted password matches its own string and no other, never null. Two accepted passwords are equal iff their strings are. |

## Left out

- The HTTP layer (ReservationController.java, AdminReservationController.java) is routing and response building only.
- DatabaseCleaner.java is test infrastructure (table truncation); it is not part of this model.
- ReservationService.java is not part of this model. The service is rebuilt from the tests that call it. Where the tests do not decide, the model makes these choices:
  - Lookups go member, then time, then theme.
  - The past check comes before the slot checks.
  - The duplicate check comes before the capacity check.
  - Booking a slot that already has a BOOKED reservation fails with DuplicatedReservation.
  - Booking a slot in which the member already holds a BOOKED or WAITING reservation also fails with DuplicatedReservation.
  - A cancellation calls `cancelBooking` on a BOOKED reservation and `cancelWaiting` on any other.
  - A cancellation promotes the earliest waiter only when the slot is left without a BOOKED reservation.
- Persistence machinery is not modelled: JPA mapping, query derivation, `findAll(Specification)` and filtering by member, theme and date range, whose filter logic is not given. The separate `ReservationStatus` entity of the repository test is modelled as the record's own status field.
- Identity values are modelled as 1, 2, 3, … in save order. The store never deletes, so the id of the i-th saved reservation is i.
- Transactions and concurrency are not modelled: each operation is one sequential step.
- The clock and java.time are not modelled. Instants are integer ticks (nanoseconds) and dates are day numbers. `now` is a parameter of the service operations.
- Member.java is not part of this model. Members are reduced to an id, the basis of their equality, and an administrator flag.
- The exceptions for an unknown member and for a member who may not modify a reservation are not given. They appear as `MemberNotFound` and `NotModifiable` without messages.
- The JPA no-argument constructors of Reservation, Email and Password are left out, and so are the hashCode methods of Email and Password. They only serve persistence and hashing.
- Regular expressions are not modelled in general: `MatchesAddressPattern` is the one pattern Email uses, written out with Java's default ASCII `\w`.
- Booking.Promote: among waiters with the same creation time, the contract does not say which one is promoted. The queries behind `findFirstWaitingBy` and `findFirstWaiting` are not shown, and no test depends on the order of tied rows.
- ReservationQueries.FirstWaiting: it returns one of the earliest waiters. Which one among ties is left unstated, for the same reason.
- Booking.CancelledStatus: no guard against cancelling an already cancelled reservation is modelled, because none is shown. A second cancel rewrites BOOKING_CANCELLED as WAITING_CANCELLED.
