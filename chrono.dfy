/** Dates, times of day and instants as integers.

    A LocalDate is a day number, a LocalTime a count of nanosecond ticks
    since midnight, and a LocalDateTime a count of ticks since the start of
    day 0. The ordering of LocalDateTime is then the ordering of integers. */
module Chrono {

  /** A calendar date, as the number of days since an epoch day 0. */
  type Date = int

  /** Ticks (nanoseconds) in one day. */
  const TicksPerDay: int := 86_400_000_000_000

  /** A time of day, the resolution of java.time.LocalTime. */
  type TimeOfDay = t: int | 0 <= t < TicksPerDay

  /** A date-time, as ticks since the start of day 0. */
  type Instant = int

  /** LocalDateTime.of(date, time). */
  function At(date: Date, time: TimeOfDay): (i: Instant)
    ensures date * TicksPerDay <= i < (date + 1) * TicksPerDay
  {
    date * TicksPerDay + time
  }

  /** LocalDateTime.toLocalDate(): the day an instant falls on. */
  function DateOf(i: Instant): (d: Date)
    ensures d * TicksPerDay <= i < (d + 1) * TicksPerDay
  {
    i / TicksPerDay
  }

  /** LocalDateTime.isBefore. */
  predicate IsBefore(a: Instant, b: Instant) {
    a < b
  }

  /** Combining a date and a time of day is order-preserving for the
      lexicographic order on (date, time), so comparing instants compares
      dates first and times of day second. */
  lemma AtOrder(d1: Date, t1: TimeOfDay, d2: Date, t2: TimeOfDay)
    ensures IsBefore(At(d1, t1), At(d2, t2)) <==> d1 < d2 || (d1 == d2 && t1 < t2)
  {
    if d1 < d2 {
      assert (d1 + 1) * TicksPerDay <= d2 * TicksPerDay;
    } else if d2 < d1 {
      assert (d2 + 1) * TicksPerDay <= d1 * TicksPerDay;
    }
  }
}
