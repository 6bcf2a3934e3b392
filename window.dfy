/** The on/off window check shared by both generations of the controller
    (check_time_in_range). The clock read is a parameter: the newer
    controller passes the time of day at UTC+9, the older one naive local time. */
module Window {
  import opened Base

  /** What check_time_in_range returns: the verdict and a reason code that
      says which branch decided it. */
  datatype Judge = Judge(inRange: bool, reason: int)

  /** The clockwise distance on the 24-hour dial from `from` to `to`. */
  function Ahead(from: TimeOfDay, to: TimeOfDay): (d: int)
    ensures 0 <= d < Day
    ensures d == 0 <==> from == to
  {
    (to - from) % Day
  }

  /** A window whose start is later than its end wraps past midnight; both
      ends are inclusive, and the branches are tried in the source's order. */
  function CheckTimeInRange(start: TimeOfDay, end: TimeOfDay, now: TimeOfDay): (r: Judge)
    ensures start <= end ==> r.reason == 0
    ensures start > end ==> r.reason != 0
    ensures start > end && now >= start ==> r == Judge(true, 1)
    ensures start > end && now < start && now <= end ==> r == Judge(true, 2)
    ensures !r.inRange ==> r.reason == (if start <= end then 0 else 1)
  {
    if start <= end then
      if start <= now <= end then Judge(true, 0) else Judge(false, 0)
    else if now >= start then Judge(true, 1)
    else if now <= end then Judge(true, 2)
    else Judge(false, 1)
  }

  /** The verdict is the same as "now lies on the clockwise arc that runs
      from start to end", ends included: one rule for both branches. */
  lemma InRangeIffOnArc(start: TimeOfDay, end: TimeOfDay, now: TimeOfDay)
    ensures CheckTimeInRange(start, end, now).inRange <==> Ahead(start, now) <= Ahead(start, end)
  {
    if start <= end {
      DivModUnique(end - start, Day, 0, end - start);
      if now >= start {
        DivModUnique(now - start, Day, 0, now - start);
      } else {
        DivModUnique(now - start, Day, -1, now - start + Day);
      }
    } else {
      DivModUnique(end - start, Day, -1, end - start + Day);
      if now >= start {
        DivModUnique(now - start, Day, 0, now - start);
      } else {
        DivModUnique(now - start, Day, -1, now - start + Day);
      }
    }
  }

  /** A window whose start equals its end is "in range" at that one instant only. */
  lemma DegenerateWindow(t: TimeOfDay, now: TimeOfDay)
    ensures CheckTimeInRange(t, t, now).inRange <==> now == t
  {
  }

  /** Apart from the instant of the off time itself, the verdict says
      whether the on time was passed more recently than the off time, which
      is the switch a daily schedule of both times would have made last. */
  lemma InRangeIffOnIsLatest(start: TimeOfDay, end: TimeOfDay, now: TimeOfDay)
    requires start != end && now != end
    ensures CheckTimeInRange(start, end, now).inRange <==> Ahead(start, now) < Ahead(end, now)
  {
    InRangeIffOnArc(start, end, now);
    var a, b, c := Ahead(start, now), Ahead(start, end), Ahead(end, now);
    // Going round the dial from start to now passes end exactly when a > b.
    if a <= b {
      DivModUnique(now - end, Day, if now >= end then 0 else -1, a - b + Day);
      assert c == a - b + Day;
    } else {
      DivModUnique(now - end, Day, if now >= end then 0 else -1, a - b);
      assert c == a - b;
    }
  }

  /** At the very instant of the off time the window still reports "in
      range", although the off switch is the one just reached. */
  lemma OffInstantIsInRange(start: TimeOfDay, end: TimeOfDay)
    requires start != end
    ensures CheckTimeInRange(start, end, end) == Judge(true, if start <= end then 0 else 2)
    ensures Ahead(end, end) < Ahead(start, end)
  {
  }

  /** The day-crossing example: on at 20:00 and off at 08:00. */
  lemma DayCrossingExample()
    ensures CheckTimeInRange(FromHourMinute(20, 0), FromHourMinute(8, 0), FromHourMinute(7, 0)) == Judge(true, 2)
    ensures CheckTimeInRange(FromHourMinute(20, 0), FromHourMinute(8, 0), FromHourMinute(9, 0)) == Judge(false, 1)
    ensures CheckTimeInRange(FromHourMinute(20, 0), FromHourMinute(8, 0), FromHourMinute(12, 0)) == Judge(false, 1)
    ensures CheckTimeInRange(FromHourMinute(20, 0), FromHourMinute(8, 0), FromHourMinute(21, 0)) == Judge(true, 1)
  {
  }
}
