/**
  Clock times and the length of the night.

  A clock time is an hour and a minute with no date part. The length of the
  night is measured from the start time to the end time; when the end is
  earlier in the day than the start, the night crosses midnight and a whole
  day is added to the end before subtracting. Durations are kept in whole
  minutes rather than in fractional hours.
 */
module Clock {

  datatype ClockTime = ClockTime(hour: int, minute: int) {

    /** An hour in [0, 23] and a minute in [0, 59]. */
    predicate Valid() {
      0 <= hour < 24 && 0 <= minute < 60
    }

    /** Minutes since midnight. */
    function Minutes(): int {
      hour * 60 + minute
    }
  }

  /** Adds a duration to a clock time; hours roll over modulo 24. */
  function AddMinutes(t: ClockTime, d: int): (r: ClockTime)
    ensures r.Valid()
    ensures r.Minutes() == (t.Minutes() + d) % 1440
  {
    var m := (t.Minutes() + d) % 1440;
    ClockTime(m / 60, m % 60)
  }

  /**
    The length of the night in minutes. An end that is earlier than the start
    lies on the next day.
   */
  function PatrolDuration(start: ClockTime, end: ClockTime): (d: int)
    ensures start.Valid() && end.Valid() ==> 0 <= d < 1440
    ensures start.Minutes() <= end.Minutes() ==> d == end.Minutes() - start.Minutes()
  {
    var s := start.Minutes();
    var e := end.Minutes();
    if s > e then e + 1440 - s else e - s
  }

  /** Valid clock times with the same minute of the day are the same time. */
  lemma MinutesInjective(a: ClockTime, b: ClockTime)
    requires a.Valid() && b.Valid() && a.Minutes() == b.Minutes()
    ensures a == b
  {
  }

  /** The minute of the day reached by walking the duration forward is the end's. */
  lemma DurationWraps(s: int, e: int)
    requires 0 <= s < 1440 && 0 <= e < 1440
    ensures (s + (if s > e then e + 1440 - s else e - s)) % 1440 == e
  {
  }

  /** Walking the duration forward from the start lands exactly on the end. */
  lemma DurationRoundTrip(start: ClockTime, end: ClockTime)
    requires start.Valid() && end.Valid()
    ensures AddMinutes(start, PatrolDuration(start, end)) == end
  {
    DurationWraps(start.Minutes(), end.Minutes());
    MinutesInjective(AddMinutes(start, PatrolDuration(start, end)), end);
  }

  /** For valid times the night has length 0 exactly when start and end coincide. */
  lemma DurationZero(start: ClockTime, end: ClockTime)
    requires start.Valid() && end.Valid()
    ensures PatrolDuration(start, end) == 0 <==> start == end
  {
    if PatrolDuration(start, end) == 0 {
      MinutesInjective(start, end);
    }
  }

  /** The duration from a start to the start plus d is d again. */
  lemma DurationOfAdd(start: ClockTime, d: int)
    requires start.Valid() && 0 <= d < 1440
    ensures PatrolDuration(start, AddMinutes(start, d)) == d
  {
    var s := start.Minutes();
    var e := AddMinutes(start, d);
    if s + d < 1440 {
      assert e.Minutes() == s + d;
    } else {
      assert e.Minutes() == s + d - 1440;
    }
  }

  /**
    The duration is the only amount in [0, 1440) that carries the start onto
    the end modulo a day.
   */
  lemma DurationUnique(start: ClockTime, end: ClockTime, d: int)
    requires start.Valid() && end.Valid()
    requires 0 <= d < 1440
    requires (start.Minutes() + d) % 1440 == end.Minutes()
    ensures d == PatrolDuration(start, end)
  {
    var s := start.Minutes();
    if s + d < 1440 {
      assert end.Minutes() == s + d;
    } else {
      assert end.Minutes() == s + d - 1440;
    }
  }
}
