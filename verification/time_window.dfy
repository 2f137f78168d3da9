/**
  Clock arithmetic shared by the price analysis and both switch evaluators.

  Instants are microseconds on the controller's local (naive) clock, the
  resolution of Python's datetime. A daily
  window is configured as two times of day; every component turns it into a
  concrete pair of instants relative to "now" by the same rule: if the stop
  instant today is not after now, move both ends to tomorrow; if the start is
  then after the stop, the window straddles midnight and its start moves back
  one day.
 */
module TimeWindow {

  const Second: int := 1_000_000
  const MinuteLength: int := 60 * Second
  const HourLength: int := 60 * MinuteLength
  const Day: int := 24 * HourLength

  /** A time of day as parsed from an "HH:MM:SS" setting. */
  type TimeOfDay = t: int | 0 <= t < 86_400_000_000

  /** A window made concrete: absolute start and stop instants. */
  datatype Window = Window(start: int, stop: int) {
    /** Membership as the evaluators test it: both bounds inclusive. */
    predicate Contains(t: int) {
      start <= t <= stop
    }
  }

  /** The time of day of an instant. */
  function TimeOf(now: int): TimeOfDay {
    now % Day
  }

  /** The hour field of an instant (datetime.hour). */
  function HourOf(now: int): (h: int)
    ensures 0 <= h < 24
    ensures h * HourLength <= TimeOf(now) < (h + 1) * HourLength
  {
    TimeOf(now) / HourLength
  }

  /** The instant at which the given time of day falls on the calendar day of `now`. */
  function Today(now: int, tod: TimeOfDay): (t: int)
    ensures t % Day == tod
    ensures now - TimeOf(now) <= t < now - TimeOf(now) + Day
  {
    now - TimeOf(now) + tod
  }

  /**
    The window normalisation done at Octopus.py:115-127, Tesla.py:78-85 and
    Immersion.py:78-85. The result keeps the configured times of day, ends
    strictly after now and at most one day later, and is less than a day long.
   */
  function Normalise(now: int, startTod: TimeOfDay, stopTod: TimeOfDay): (w: Window)
    ensures w.start <= w.stop
    ensures now < w.stop <= now + Day
    ensures w.stop - Day < w.start
    ensures w.start % Day == startTod && w.stop % Day == stopTod
  {
    var start0, stop0 := Today(now, startTod), Today(now, stopTod);
    var start1 := if stop0 <= now then start0 + Day else start0;
    var stop1 := if stop0 <= now then stop0 + Day else stop0;
    var start2 := if start1 > stop1 then start1 - Day else start1;
    Window(start2, stop1)
  }

  /** Two instants with the same time of day less than a day apart are equal. */
  lemma SameTimeOfDay(a: int, b: int)
    requires a % Day == b % Day
    requires a - Day < b < a + Day
    ensures a == b
  {
    var qa, qb := a / Day, b / Day;
    assert a == qa * Day + a % Day;
    assert b == qb * Day + b % Day;
    assert a - b == (qa - qb) * Day;
  }

  /**
    The postconditions of Normalise determine its result: any window with the
    configured times of day that ends in (now, now + Day] and is shorter than a
    day is the normalised one.
   */
  lemma NormaliseUnique(now: int, startTod: TimeOfDay, stopTod: TimeOfDay, w: Window)
    requires w.start <= w.stop && now < w.stop <= now + Day && w.stop - Day < w.start
    requires w.start % Day == startTod && w.stop % Day == stopTod
    ensures w == Normalise(now, startTod, stopTod)
  {
    var n := Normalise(now, startTod, stopTod);
    SameTimeOfDay(w.stop, n.stop);
    SameTimeOfDay(w.start, n.start);
  }

  /**
    Whether now lies in the normalised window depends only on the time of day
    of now: it is inside exactly when that time of day lies in the configured
    daily range, start included and stop EXCLUDED (wrapping past midnight when
    the start is later than the stop). In particular a window whose start and
    stop coincide is never entered, and at the very stop instant the window has
    already rolled over to the next day.
   */
  lemma InsideIffDailyRange(now: int, startTod: TimeOfDay, stopTod: TimeOfDay)
    ensures Normalise(now, startTod, stopTod).Contains(now) <==>
      if startTod <= stopTod then startTod <= TimeOf(now) < stopTod
      else stopTod > TimeOf(now) || TimeOf(now) >= startTod
  {
    var t := TimeOf(now);
    var midnight := now - t;
    assert now == midnight + t;
  }

  /** Example: a 22:00 to 06:00 window contains 23:30 of the same evening. */
  lemma OvernightExample(now: int)
    requires TimeOf(now) == 23 * HourLength + 30 * MinuteLength
    ensures Normalise(now, 22 * HourLength, 6 * HourLength).Contains(now)
  {
    InsideIffDailyRange(now, 22 * HourLength, 6 * HourLength);
  }
}
