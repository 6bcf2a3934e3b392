/** The external liveness probe (app/healthz.py) and what the worker's
    heartbeat guarantees it. The marker file is reduced to whether it exists
    and how long ago it was last touched. */
module Healthz {
  import opened Base
  import opened Jobs
  import opened Scheduler

  /** How old the marker may be: `max(interval_sec * 2, 60)`, never less than a minute. */
  function Threshold(interval: int): (t: int)
    ensures t >= 60 * Second && t >= 2 * interval
    ensures t == 60 * Second || t == 2 * interval
  {
    if 2 * interval > 60 * Second then 2 * interval else 60 * Second
  }

  /** `check_liveness`: unhealthy when the marker is missing or strictly
      older than the threshold, healthy otherwise. `interval` is the probe's
      own `interval_sec` setting, not the worker's. */
  function CheckLiveness(present: bool, elapsed: int, interval: int): (ok: bool)
    ensures ok <==> present && elapsed <= Threshold(interval)
  {
    if !present then false
    else if elapsed > Threshold(interval) then false
    else true
  }

  /** What one run of the probe comes to: it returns True, returns False,
      or raises. */
  datatype ProbeOutcome = Healthy | Unhealthy | Raised

  /** `check_liveness` as written: for a stale marker the warning formats
      the bound method `elapsed.total_seconds`, not its value, with the
      spec `{:,}`, which raises TypeError before `return False` is reached.
      The verdict is otherwise the intended one of CheckLiveness. */
  function CheckLivenessAsWritten(present: bool, elapsed: int, interval: int): (r: ProbeOutcome)
    ensures r == Healthy <==> CheckLiveness(present, elapsed, interval)
    ensures r == Raised <==> present && elapsed > Threshold(interval)
    ensures r == Unhealthy <==> !present
  {
    if !present then Unhealthy
    else if elapsed > Threshold(interval) then Raised
    else Healthy
  }

  /** The exit status of the probe script: 0 after True, -1 (255) after
      False, and 1 when an exception escapes. */
  function ExitStatus(o: ProbeOutcome): (code: int)
    ensures code == 0 <==> o == Healthy
  {
    match o
    case Healthy => 0
    case Unhealthy => 255
    case Raised => 1
  }

  /** A marker 61 s old seen by a probe with `interval_sec` 10: the intended
      check returns False, the code as written raises instead. Either way
      the probe exits nonzero, so the verdict seen from outside agrees. */
  lemma StaleMarkerRaises()
    ensures !CheckLiveness(true, 61 * Second, 10 * Second)
    ensures CheckLivenessAsWritten(true, 61 * Second, 10 * Second) == Raised
    ensures forall present: bool, elapsed: int, interval: int ::
      ExitStatus(CheckLivenessAsWritten(present, elapsed, interval)) == 0 <==> CheckLiveness(present, elapsed, interval)
  {
  }

  /** The comparison is strict: an age equal to the threshold is still
      healthy, one millisecond more is not; and any age up to a minute is
      healthy whatever the interval. */
  lemma ThresholdIsInclusive(interval: int, elapsed: int)
    ensures CheckLiveness(true, Threshold(interval), interval)
    ensures !CheckLiveness(true, Threshold(interval) + 1, interval)
    ensures elapsed <= 60 * Second ==> CheckLiveness(true, elapsed, interval)
    ensures !CheckLiveness(false, elapsed, interval)
  {
  }

  /** A marker healthy at some age is healthy at every smaller age. */
  lemma HealthyIsMonotone(interval: int, elapsed: int, earlier: int)
    requires earlier <= elapsed
    requires CheckLiveness(true, elapsed, interval)
    ensures CheckLiveness(true, earlier, interval)
  {
  }

  /** How many ticks a touch of the marker covers: one when every tick
      touches it, otherwise the k ticks that make ten seconds. */
  function Cadence(interval: int): (k: int)
    requires ValidInterval(interval)
    ensures k >= 1
    ensures k * interval == if interval >= 10 * Second then interval else 10 * Second
  {
    if interval >= 10 * Second then 1
    else
      TouchCadence(interval, 0);
      (10 * Second) / interval
  }

  /** How many ticks have ended since the one that last touched the marker,
      at the end of tick i: zero exactly on a touching tick, and always less
      than the cadence. */
  function TicksSinceTouch(interval: int, i: nat): (n: nat)
    requires ValidInterval(interval)
    ensures n < Cadence(interval)
    ensures n == 0 <==> Touches(interval, i)
  {
    if interval >= 10 * Second then 0 else i % ((10 * Second) / interval)
  }

  /** After one more tick the count is reset by a touch, otherwise it grows by one. */
  lemma {:induction false} TicksSinceTouchStep(interval: int, i: nat)
    requires ValidInterval(interval)
    ensures TicksSinceTouch(interval, i + 1) == if Touches(interval, i + 1) then 0 else TicksSinceTouch(interval, i) + 1
  {
    if interval < 10 * Second {
      var k := (10 * Second) / interval;
      TouchCadence(interval, i);
      var q, r := i / k, i % k;
      assert i == q * k + r;
      if r + 1 < k {
        DivModUnique(i + 1, k, q, r + 1);
      } else {
        DivModUnique(i + 1, k, q + 1, 0);
      }
    }
  }

  lemma MultiplyMonotone(a: int, b: int, c: int)
    requires 0 <= a <= b && c >= 0
    ensures 0 <= a * c <= b * c
  {
  }

  /** One tick of length d, at most `longest`, that does not touch the
      marker adds d to its age, which stays within the bound for the next
      tick count. */
  lemma AgeAfterTick(interval: int, longest: int, k: nat, age: int, d: int)
    requires ValidInterval(interval) && 0 <= d <= longest
    requires k > 0 ==> 0 <= age <= TicksSinceTouch(interval, k - 1) * longest
    ensures !Touches(interval, k) ==> 0 <= age + d <= TicksSinceTouch(interval, k) * longest
  {
    if k > 0 {
      TicksSinceTouchStep(interval, k - 1);
      var n := TicksSinceTouch(interval, k - 1);
      assert (n + 1) * longest == n * longest + longest;
    }
  }

  /** A marker no older than the ticks since the last touch, each lasting at
      most `longest`, is still healthy one more tick later, just before that
      tick's own touch, provided one full cadence of such ticks fits in the
      probe's threshold. */
  lemma HeartbeatIsHealthy(interval: int, probeInterval: int, longest: int, i: nat, age: int)
    requires ValidInterval(interval) && longest >= 0
    requires 0 <= age <= TicksSinceTouch(interval, i) * longest
    requires Cadence(interval) * longest <= Threshold(probeInterval)
    ensures CheckLiveness(true, age + longest, probeInterval)
  {
    var n, k := TicksSinceTouch(interval, i), Cadence(interval);
    MultiplyMonotone(n, k - 1, longest);
    assert (k - 1) * longest + longest == k * longest;
  }

  /** When every tick lasts exactly one worker interval, a cadence of ticks
      spans max(interval, 10 s), so the probe reports healthy whenever that
      fits its threshold, and in particular for every worker interval up to
      a minute, whatever the probe's own interval. */
  lemma OnTimeWorkerIsHealthy(interval: int, probeInterval: int, i: nat, age: int)
    requires ValidInterval(interval)
    requires 0 <= age <= TicksSinceTouch(interval, i) * interval
    requires interval <= 60 * Second || (if interval >= 10 * Second then interval else 10 * Second) <= Threshold(probeInterval)
    ensures CheckLiveness(true, age + interval, probeInterval)
  {
    HeartbeatIsHealthy(interval, probeInterval, interval, i, age);
  }

  /** The two intervals are separate settings: a worker ticking every 100 s
      leaves a marker 100 s old, which a probe set to 10 s calls unhealthy. */
  lemma SlowWorkerFastProbe()
    ensures Cadence(100 * Second) * (100 * Second) == 100 * Second
    ensures !CheckLiveness(true, 100 * Second, 10 * Second)
  {
  }

  /** The clock time a run of ticks takes: each tick lasts its processing
      time plus the sleep that follows. */
  function Span(interval: int, elapsed: seq<int>): int
  {
    if elapsed == [] then 0
    else Span(interval, elapsed[..|elapsed| - 1]) + elapsed[|elapsed| - 1] + SleepFor(interval, elapsed[|elapsed| - 1])
  }

  /** A worker started with tick 0 runs a tick per entry of `elapsed`, each
      with that processing time and no fault, each lasting at most `longest`
      (any bound on the processing time plus 0.1 s that is at least the
      interval). Afterwards the marker exists and its age is at most the
      ticks since the last touch times `longest`, so right after the first
      tick it is fresh; and the probe still reports healthy at the end of
      the next tick, just before that tick's own touch, whenever a cadence
      of such ticks fits the probe's threshold (HealthyIsMonotone covers
      every earlier instant). */
  method RunNormally<F, A>(w: Worker<F, A>, start: int, elapsed: seq<int>, longest: int, probeInterval: int) returns (clock: int)
    requires w.alive && !w.shouldTerminate && w.tick == 0 && ValidInterval(w.interval)
    requires elapsed != []
    requires w.interval <= longest
    requires forall k :: 0 <= k < |elapsed| ==> 0 <= elapsed[k] && elapsed[k] + 100 <= longest
    modifies w
    ensures clock == start + Span(w.interval, elapsed)
    ensures w.alive && w.tick == |elapsed| && w.interval == old(w.interval)
    ensures w.marker.Some?
    ensures 0 <= clock - w.marker.value <= TicksSinceTouch(w.interval, |elapsed| - 1) * longest
    ensures |elapsed| == 1 ==> w.marker.value == clock
    ensures Cadence(w.interval) * longest <= Threshold(probeInterval) ==>
      CheckLiveness(true, clock + longest - w.marker.value, probeInterval)
  {
    var interval := w.interval;
    clock := start;
    var k := 0;
    while k < |elapsed|
      invariant 0 <= k <= |elapsed|
      invariant w.alive && !w.shouldTerminate && w.interval == interval && w.tick == k
      invariant clock == start + Span(interval, elapsed[..k])
      invariant k > 0 ==> w.marker.Some? && 0 <= clock - w.marker.value <= TicksSinceTouch(interval, k - 1) * longest
    {
      var e := elapsed[k];
      var d := e + SleepFor(interval, e);
      ghost var age := if k > 0 then clock - w.marker.value else 0;
      AgeAfterTick(interval, longest, k, age, d);
      var res := w.Tick(clock, clock, e, false);
      assert elapsed[..k + 1][..k] == elapsed[..k];
      clock := clock + d;
      k := k + 1;
    }
    assert elapsed[..k] == elapsed;
    if Cadence(interval) * longest <= Threshold(probeInterval) {
      HeartbeatIsHealthy(interval, probeInterval, longest, k - 1, clock - w.marker.value);
    }
  }
}
