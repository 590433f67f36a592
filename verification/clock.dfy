/** The request clock. The serializer reads the current date and time of
    day; here they are an input, so "not in the past" is a pure comparison. */
module Clock {

  /** Time-of-day resolution: the time column keeps microseconds. */
  const TicksPerDay: int := 86_400_000_000

  /** A clock reading: a calendar day number and a time of day in ticks. */
  datatype Now = Now(today: int, time: int)

  predicate IsTimeOfDay(t: int) {
    0 <= t < TicksPerDay
  }

  /** The booking guard as written: the date is before today, or it is today
      and the time of day is strictly earlier than now. */
  predicate InPast(date: int, time: int, now: Now) {
    date < now.today || (date == now.today && time < now.time)
  }

  /** Independent reference: a date and time of day as one position on a
      single time line. */
  function Instant(date: int, time: int): int {
    date * TicksPerDay + time
  }

  /** The lexicographic test is the same as comparing positions on the time
      line, as long as both times of day are in range. */
  lemma InPastIffBeforeNow(date: int, time: int, now: Now)
    requires IsTimeOfDay(time) && IsTimeOfDay(now.time)
    ensures InPast(date, time, now) <==> Instant(date, time) < Instant(now.today, now.time)
  {
    if date < now.today {
      assert Instant(date, time) < Instant(date + 1, 0) <= Instant(now.today, 0);
    } else if date > now.today {
      assert Instant(now.today, now.time) < Instant(now.today + 1, 0) <= Instant(date, 0);
    }
  }

  /** An event at exactly the current moment is not in the past: the
      comparison is strict. */
  lemma NowIsNotPast(now: Now)
    ensures !InPast(now.today, now.time, now)
  {
  }
}
