/** Points in time as the fact table stores them: a calendar day (a day number,
    so that "same calendar date" is equality of days) and a time of day.
    Both the transaction time and the valid start time of a row are of this type. */
module Timestamps {

  datatype Timestamp = Timestamp(day: int, hour: int, minute: int, second: int)

  /** Chronological order: lexicographic on (day, hour, minute, second). */
  predicate AtOrBefore(a: Timestamp, b: Timestamp)
  {
    || a.day < b.day
    || (a.day == b.day && a.hour < b.hour)
    || (a.day == b.day && a.hour == b.hour && a.minute < b.minute)
    || (a.day == b.day && a.hour == b.hour && a.minute == b.minute && a.second <= b.second)
  }

  predicate Before(a: Timestamp, b: Timestamp)
  {
    AtOrBefore(a, b) && a != b
  }

  /** A requested time whose hour and minute are both zero is read as a bare
      calendar date; the seconds play no part in that test. */
  predicate IsDateOnly(t: Timestamp)
  {
    t.hour == 0 && t.minute == 0
  }

  predicate SameDate(a: Timestamp, b: Timestamp)
  {
    a.day == b.day
  }

  lemma AtOrBeforeIsTotalOrder(a: Timestamp, b: Timestamp, c: Timestamp)
    ensures AtOrBefore(a, a)
    ensures AtOrBefore(a, b) || AtOrBefore(b, a)
    ensures AtOrBefore(a, b) && AtOrBefore(b, a) ==> a == b
    ensures AtOrBefore(a, b) && AtOrBefore(b, c) ==> AtOrBefore(a, c)
  {
  }
}
