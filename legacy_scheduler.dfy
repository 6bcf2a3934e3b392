/** The older scheduler (lib/aquarium/scheduler.py): the same worker loop
    as the newer one, except that a tick takes at most one queued schedule,
    jobs are registered without a name and called directly, the sleep is
    floored at one second, and stopping leaves the registry as it is. */
module LegacyScheduler {
  import opened Base
  import opened Jobs
  import opened Scheduler

  /** The job the older `set_schedule` registers for an entry: daily at the
      entry's time, bound to its callable and arguments, with no name. */
  function LegacyBind<F, A>(e: Entry<F, A>, now: int): (j: Job<F, A>)
    ensures j.name == None && j.at == e.at && j.func == e.func && j.args == e.args
    ensures now < j.nextRun <= now + Day && OnSchedule(j)
  {
    Job(None, e.at, e.func, e.args, NextRun(e.at, now))
  }

  /** The registry right after the older `set_schedule(timezone, entries)`:
      cleared, then one job per entry, in entry order. */
  function LegacyInstall<F, A>(entries: seq<Entry<F, A>>, now: int): (r: seq<Job<F, A>>)
    ensures |r| == |entries|
    ensures forall k :: 0 <= k < |r| ==> r[k] == LegacyBind(entries[k], now)
  {
    if entries == [] then []
    else LegacyInstall(entries[..|entries| - 1], now) + [LegacyBind(entries[|entries| - 1], now)]
  }

  /** Both generations register the same jobs for the same entries; only
      the newer one names them. */
  lemma {:induction false} LegacyInstallIsUnnamedInstall<F, A>(entries: seq<Entry<F, A>>, now: int)
    ensures |LegacyInstall(entries, now)| == |Install(entries, now)|
    ensures forall k :: 0 <= k < |entries| ==>
      LegacyInstall(entries, now)[k] == Install(entries, now)[k].(name := None)
  {
    if entries != [] {
      LegacyInstallIsUnnamedInstall(entries[..|entries| - 1], now);
    }
  }

  /** The sleep at the end of a tick, `max(interval - elapsed, 1 s)`. */
  function LegacySleepFor(interval: int, elapsed: int): (r: int)
    ensures r >= Second
    ensures r == Second || r == interval - elapsed
    ensures elapsed >= 0 ==> r <= if interval > Second then interval else Second
    ensures elapsed + r == if interval > elapsed + Second then interval else elapsed + Second
  {
    if interval - elapsed > Second then interval - elapsed else Second
  }

  /** The one-second floor is the newer 0.1 s floor raised: the two sleeps
      agree whenever the processing left at least a second of the interval. */
  lemma SleepFloors(interval: int, elapsed: int)
    ensures LegacySleepFor(interval, elapsed) >= SleepFor(interval, elapsed)
    ensures interval - elapsed >= Second ==> LegacySleepFor(interval, elapsed) == SleepFor(interval, elapsed)
  {
  }

  /** The queue and registry after one tick's intake: the oldest queued
      schedule, if any, is taken and installed; the rest wait. */
  function TakeOne<F, A>(queue: seq<seq<Entry<F, A>>>, jobs: seq<Job<F, A>>, now: int): (r: (seq<seq<Entry<F, A>>>, seq<Job<F, A>>))
    ensures queue == [] ==> r == (queue, jobs)
    ensures queue != [] ==> [queue[0]] + r.0 == queue && r.1 == LegacyInstall(queue[0], now)
  {
    if queue == [] then (queue, jobs) else (queue[1..], LegacyInstall(queue[0], now))
  }

  /** The intake of n ticks in a row at the same clock: one queued schedule
      per tick while any remain. */
  function TakeMany<F, A>(queue: seq<seq<Entry<F, A>>>, jobs: seq<Job<F, A>>, now: int, n: nat): (r: (seq<seq<Entry<F, A>>>, seq<Job<F, A>>))
    ensures n <= |queue| ==> r.0 == queue[n..]
    ensures n >= |queue| ==> r.0 == []
    ensures n == 0 || queue == [] ==> r.1 == jobs
  {
    if n == 0 then (queue, jobs)
    else var (q, js) := TakeOne(queue, jobs, now); TakeMany(q, js, now, n - 1)
  }

  /** n queued schedules need n ticks: after k <= n ticks the first k are
      consumed and the k-th is installed, so every queued schedule is in
      force for at least one tick. */
  lemma {:induction false} OneSchedulePerTick<F, A>(queue: seq<seq<Entry<F, A>>>, jobs: seq<Job<F, A>>, now: int, k: nat)
    requires 0 < k <= |queue|
    ensures TakeMany(queue, jobs, now, k) == (queue[k..], LegacyInstall(queue[k - 1], now))
  {
    var (q, js) := TakeOne(queue, jobs, now);
    if k > 1 {
      OneSchedulePerTick(q, js, now, k - 1);
      assert q[k - 1..] == queue[k..];
    }
  }

  /** The module state of the older scheduler, the schedule library's
      registry, the queue and the worker loop's variables, as one object. */
  class LegacyWorker<F, A> {
    var shouldTerminate: bool
    /** The worker loop is running. */
    var alive: bool
    var queue: seq<seq<Entry<F, A>>>
    var jobs: seq<Job<F, A>>
    /** Every invocation a fired job has made, in order. */
    var calls: seq<Call<F, A>>
    /** `check_interval_sec`, in milliseconds. */
    var interval: int
    /** The loop counter `i`. */
    var tick: nat
    /** When the liveness marker was last touched, if ever. */
    var marker: Option<int>

    constructor ()
      ensures !shouldTerminate && !alive && queue == [] && jobs == [] && calls == []
      ensures interval == 10 * Second && tick == 0 && marker == None
    {
      shouldTerminate, alive := false, false;
      queue, jobs, calls := [], [], [];
      interval, tick, marker := 10 * Second, 0, None;
    }

    /** Entering `schedule_worker(timezone, queue, liveness_path, check_interval_sec=10)`. */
    method Start(checkInterval: int := 10 * Second)
      requires !alive && ValidInterval(checkInterval)
      modifies this`alive, this`queue, this`interval, this`tick
      ensures alive && queue == [] && interval == checkInterval && tick == 0
    {
      alive, queue, interval, tick := true, [], checkInterval, 0;
    }

    /** `queue.put(data)` on the producer side. */
    method Put(data: seq<Entry<F, A>>)
      modifies this`queue
      ensures queue == old(queue) + [data]
    {
      queue := queue + [data];
    }

    /** `set_schedule`: clear the registry, then register one job per entry. */
    method SetSchedule(data: seq<Entry<F, A>>, now: int)
      modifies this`jobs
      ensures jobs == LegacyInstall(data, now)
    {
      jobs := [];
      for k := 0 to |data|
        invariant jobs == LegacyInstall(data[..k], now)
      {
        assert data[..k + 1][..k] == data[..k];
        jobs := jobs + [LegacyBind(data[k], now)];
      }
      assert data[..|data|] == data;
    }

    /** `run_pending`: every due job calls its callable directly, in registry
        order, and is rescheduled. */
    method RunJobs(runAt: int)
      modifies this`jobs, this`calls
      ensures jobs == Advance(old(jobs), runAt)
      ensures calls == old(calls) + DueCalls(old(jobs), runAt)
    {
      var after, fired := RunPending(jobs, runAt);
      jobs := after;
      calls := calls + fired;
    }

    /** One iteration of the older `schedule_worker`, with the same
        parameters as the newer one's. Taking an empty schedule clears the
        registry and then ends the worker thread with an exception. */
    method Tick(now: int, runAt: int, elapsed: int, overflow: bool) returns (res: TickResult)
      requires alive && ValidInterval(interval)
      modifies this
      ensures shouldTerminate == old(shouldTerminate) && interval == old(interval)
      ensures old(shouldTerminate) ==>
        && res == Stopped && !alive
        && jobs == old(jobs) && queue == old(queue) && calls == old(calls)
        && tick == old(tick) && marker == old(marker)
      ensures !old(shouldTerminate) && old(queue) != [] && old(queue)[0] == [] ==>
        && res == Died && !alive && queue == old(queue)[1..] && jobs == []
        && calls == old(calls) && tick == old(tick) && marker == old(marker)
      ensures !old(shouldTerminate) && !(old(queue) != [] && old(queue)[0] == []) ==>
        var (rest, installed) := TakeOne(old(queue), old(jobs), now);
        && alive && queue == rest
        && jobs == Advance(installed, runAt)
        && calls == old(calls) + DueCalls(installed, runAt)
        && res == (if overflow then Faulted else Slept(LegacySleepFor(interval, elapsed)))
        && tick == old(tick) + 1
        && marker == (if Touches(interval, old(tick))
                      then Some(now + elapsed + (if overflow then 0 else LegacySleepFor(interval, elapsed)))
                      else old(marker))
    {
      if shouldTerminate {
        alive := false;
        return Stopped;
      }
      var empty := TakeSchedule(now);
      if empty {
        // With nothing registered the time to the next job is None, and
        // formatting it raises TypeError, which nothing catches.
        alive := false;
        return Died;
      }
      RunJobs(runAt);
      res := EndOfTick(now, elapsed, overflow);
    }

    /** The intake of a tick: the oldest queued schedule, if any, is taken
        and installed. Reports whether the schedule taken was empty. */
    method TakeSchedule(now: int) returns (empty: bool)
      modifies this`queue, this`jobs
      ensures empty <==> old(queue) != [] && old(queue)[0] == []
      ensures (queue, jobs) == TakeOne(old(queue), old(jobs), now)
    {
      empty := false;
      if queue != [] {
        var data := queue[0];
        queue := queue[1..];
        SetSchedule(data, now);
        empty := data == [];
      }
    }

    /** The end of an iteration: sleep (floored at one second) or fault,
        touch the marker when the cadence says so, count the tick. */
    method EndOfTick(now: int, elapsed: int, overflow: bool) returns (res: TickResult)
      requires ValidInterval(interval)
      modifies this`marker, this`tick
      ensures res == (if overflow then Faulted else Slept(LegacySleepFor(interval, elapsed)))
      ensures tick == old(tick) + 1
      ensures marker == (if Touches(interval, old(tick))
                         then Some(now + elapsed + (if overflow then 0 else LegacySleepFor(interval, elapsed)))
                         else old(marker))
    {
      var slept := 0;
      if overflow {
        res := Faulted;
      } else {
        slept := LegacySleepFor(interval, elapsed);
        res := Slept(slept);
      }
      if Touches(interval, tick) {
        marker := Some(now + elapsed + slept);
      }
      tick := tick + 1;
    }
  }
}
