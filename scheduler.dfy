/** The newer scheduler (src/rasp_aqua/scheduler.py): a worker that drains
    queued schedules, installs the last one, fires due jobs, sleeps and
    touches a liveness marker on a cadence, until told to stop.

    The worker thread is modelled as a sequence of calls to Worker.Tick, one
    per loop iteration; the clock reads, the measured processing time and
    whether the sleep raised OverflowError are parameters of the tick. */
module Scheduler {
  import opened Base
  import opened Jobs

  /** One entry of a schedule handed over through the queue. */
  datatype Entry<F, A> = Entry(name: string, at: TimeOfDay, func: F, args: A)

  /** How one loop iteration ended: it saw the stop flag and left the loop,
      it slept for the given number of milliseconds, the sleep raised
      OverflowError, which the loop swallows, or an exception the loop does
      not catch ended the worker thread. */
  datatype TickResult = Stopped | Slept(ms: int) | Faulted | Died

  /** The job `set_schedule` registers for an entry: a daily job at the
      entry's time, bound to the entry's callable, arguments and name, first
      due within a day. */
  function Bind<F, A>(e: Entry<F, A>, now: int): (j: Job<F, A>)
    ensures j.name == Some(e.name) && j.at == e.at && j.func == e.func && j.args == e.args
    ensures now < j.nextRun <= now + Day && OnSchedule(j)
  {
    Job(Some(e.name), e.at, e.func, e.args, NextRun(e.at, now))
  }

  /** The registry right after `set_schedule(entries)`: every earlier job is
      gone and there is exactly one job per entry, in entry order. */
  function Install<F, A>(entries: seq<Entry<F, A>>, now: int): (r: seq<Job<F, A>>)
    ensures |r| == |entries|
    ensures forall k :: 0 <= k < |r| ==> r[k] == Bind(entries[k], now)
  {
    if entries == [] then []
    else Install(entries[..|entries| - 1], now) + [Bind(entries[|entries| - 1], now)]
  }

  /** The registry after draining the whole queue, one schedule at a time:
      an empty queue leaves the registry as it was, otherwise there is one
      job per entry of the last schedule (DrainKeepsLast says which). */
  function Drain<F, A>(queue: seq<seq<Entry<F, A>>>, jobs: seq<Job<F, A>>, now: int): (r: seq<Job<F, A>>)
    ensures queue == [] ==> r == jobs
    ensures queue != [] ==> |r| == |queue[|queue| - 1]|
    decreases |queue|
  {
    if queue == [] then jobs else Drain(queue[1..], Install(queue[0], now), now)
  }

  /** Draining a non-empty queue leaves exactly the last schedule's jobs. */
  lemma {:induction false} DrainKeepsLast<F, A>(queue: seq<seq<Entry<F, A>>>, jobs: seq<Job<F, A>>, now: int)
    requires queue != []
    ensures Drain(queue, jobs, now) == Install(queue[|queue| - 1], now)
    decreases |queue|
  {
    if |queue| > 1 {
      DrainKeepsLast(queue[1..], Install(queue[0], now), now);
    }
  }

  /** Installation precedes `run_pending` in a tick: when schedules were
      queued, the calls made in that tick are exactly those of the last
      queued schedule's entries whose first run has come by `runAt`; jobs of
      earlier schedules can no longer fire. */
  lemma LastScheduleFires<F, A>(queue: seq<seq<Entry<F, A>>>, jobs: seq<Job<F, A>>, now: int, runAt: int)
    requires queue != []
    ensures var last := queue[|queue| - 1];
      forall c :: c in DueCalls(Drain(queue, jobs, now), runAt) <==>
        exists k :: 0 <= k < |last| && NextRun(last[k].at, now) <= runAt && c == Call(last[k].func, last[k].args)
  {
    var last := queue[|queue| - 1];
    DrainKeepsLast(queue, jobs, now);
    var installed := Install(last, now);
    DueCallsAreTheDueJobs(installed, runAt);
    forall c ensures c in DueCalls(installed, runAt) <==>
        exists k :: 0 <= k < |last| && NextRun(last[k].at, now) <= runAt && c == Call(last[k].func, last[k].args)
    {
      if exists k :: 0 <= k < |last| && NextRun(last[k].at, now) <= runAt && c == Call(last[k].func, last[k].args) {
        var k :| 0 <= k < |last| && NextRun(last[k].at, now) <= runAt && c == Call(last[k].func, last[k].args);
        assert IsDue(installed[k], runAt);
      }
    }
  }

  /** The sleep at the end of a tick, `max(interval - elapsed, 0.1 s)`. */
  function SleepFor(interval: int, elapsed: int): (r: int)
    ensures r >= 100
    ensures r == 100 || r == interval - elapsed
    ensures elapsed >= 0 ==> r <= if interval > 100 then interval else 100
    ensures elapsed + r == if interval > elapsed + 100 then interval else elapsed + 100
  {
    if interval - elapsed > 100 then interval - elapsed else 100
  }

  /** The intervals whose liveness cadence is integer arithmetic: ten seconds
      or more, or a divisor of ten seconds. */
  predicate ValidInterval(interval: int) {
    interval >= 10 * Second || (0 < interval && (10 * Second) % interval == 0)
  }

  /** Whether tick `i` touches the liveness marker:
      `interval >= 10 s or i % (10 s / interval) == 0`. The first tick always
      does, and every tick does when the interval is ten seconds or more. */
  function Touches(interval: int, i: nat): (b: bool)
    requires ValidInterval(interval)
    ensures i == 0 ==> b
    ensures interval >= 10 * Second ==> b
  {
    interval >= 10 * Second || i % ((10 * Second) / interval) == 0
  }

  /** With a shorter interval the marker is touched once every k ticks,
      where k intervals make exactly ten seconds. */
  lemma TouchCadence(interval: int, i: nat)
    requires ValidInterval(interval) && interval < 10 * Second
    ensures var k := (10 * Second) / interval;
      && k * interval == 10 * Second
      && (Touches(interval, i) <==> exists q :: 0 <= q && i == q * k)
      && (Touches(interval, i) ==> Touches(interval, i + k))
      && (Touches(interval, i) ==> forall j :: i < j < i + k ==> !Touches(interval, j))
  {
    var k := (10 * Second) / interval;
    DivModUnique(10 * Second, interval, k, 0);
    assert k * interval == 10 * Second;
    var q := i / k;
    assert i == q * k + i % k;
    if Touches(interval, i) {
      DivModUnique(i + k, k, q + 1, 0);
      forall j | i < j < i + k ensures !Touches(interval, j) {
        DivModUnique(j, k, q, j - i);
      }
    }
    if exists q' :: 0 <= q' && i == q' * k {
      var q' :| 0 <= q' && i == q' * k;
      DivModUnique(i, k, q', 0);
    }
  }

  /** `divmod` of the idle seconds into hours, minutes and seconds (the part
      of `schedule_status` that is not logging). Division rounds down, as
      Python's divmod does for a positive divisor. */
  function Decompose(idle: int): (r: (int, int, int))
    ensures r.0 * 3600 + r.1 * 60 + r.2 == idle
    ensures 0 <= r.1 < 60 && 0 <= r.2 < 60
    ensures idle >= 0 ==> r.0 >= 0
  {
    var hours, remainder := idle / 3600, idle % 3600;
    (hours, remainder / 60, remainder % 60)
  }

  /** The module state of scheduler.py, the job registry of the schedule
      library, the queue the worker drains, and the worker loop's own
      variables, as one object. */
  class Worker<F, A> {
    /** The module global `worker`: a worker thread has been started and not yet joined. */
    var hasWorker: bool
    /** The worker loop is running (it has not left its `while True`). */
    var alive: bool
    var shouldTerminate: bool
    var executedJob: bool
    /** Schedules put on the queue and not yet taken, oldest first. */
    var queue: seq<seq<Entry<F, A>>>
    /** The schedule library's registry, in registration order. */
    var jobs: seq<Job<F, A>>
    /** Every invocation a fired job has made, in order. */
    var calls: seq<Call<F, A>>
    /** `check_interval_sec`, in milliseconds. */
    var interval: int
    /** The loop counter `i`. */
    var tick: nat
    /** When the liveness marker was last touched, if ever. */
    var marker: Option<int>

    /** The state right after the module is imported. */
    constructor ()
      ensures !hasWorker && !alive && !shouldTerminate && !executedJob
      ensures queue == [] && jobs == [] && calls == [] && tick == 0 && marker == None
    {
      hasWorker, alive, shouldTerminate, executedJob := false, false, false, false;
      queue, jobs, calls := [], [], [];
      interval, tick, marker := 10 * Second, 0, None;
    }

    /** `init`: start a worker loop on a fresh queue. A second loop while one
        is still running is outside the model (one worker at a time). */
    method Init(checkInterval: int)
      requires !alive && ValidInterval(checkInterval)
      modifies this
      ensures hasWorker && alive && queue == [] && interval == checkInterval && tick == 0
      ensures shouldTerminate == old(shouldTerminate) && executedJob == old(executedJob)
      ensures jobs == old(jobs) && calls == old(calls) && marker == old(marker)
    {
      hasWorker, alive := true, true;
      queue, interval, tick := [], checkInterval, 0;
    }

    /** `queue.put(data)` on the producer side. */
    method Put(data: seq<Entry<F, A>>)
      modifies this`queue
      ensures queue == old(queue) + [data]
    {
      queue := queue + [data];
    }

    /** `set_schedule`: clear the registry, then register one job per entry. */
    method SetSchedule(data: seq<Entry<F, A>>, now: int)
      modifies this`jobs
      ensures jobs == Install(data, now)
    {
      jobs := [];
      for k := 0 to |data|
        invariant jobs == Install(data[..k], now)
      {
        assert data[..k + 1][..k] == data[..k];
        jobs := jobs + [Bind(data[k], now)];
      }
      assert data[..|data|] == data;
    }

    /** `schedule_task`: the wrapper every job runs, which calls the bound
        callable and then records that a job ran. */
    method ScheduleTask(c: Call<F, A>)
      modifies this`calls, this`executedJob
      ensures calls == old(calls) + [c] && executedJob
    {
      calls := calls + [c];
      executedJob := true;
    }

    /** Leaving the loop on the stop flag: the registry is cleared. */
    method Exit()
      modifies this`jobs, this`alive
      ensures jobs == [] && !alive
    {
      jobs := [];
      alive := false;
    }

    /** The inner loop of a tick: take every queued schedule, oldest first;
        each one replaces the registry. */
    method DrainQueue(now: int)
      modifies this`queue, this`jobs
      ensures queue == [] && jobs == Drain(old(queue), old(jobs), now)
    {
      while queue != []
        invariant Drain(queue, jobs, now) == Drain(old(queue), old(jobs), now)
        decreases |queue|
      {
        var data := queue[0];
        queue := queue[1..];
        SetSchedule(data, now);
      }
    }

    /** `run_pending` seen from the worker: every due job runs through
        `schedule_task`, in registry order, and is rescheduled. */
    method RunJobs(runAt: int)
      modifies this`jobs, this`calls, this`executedJob
      ensures jobs == Advance(old(jobs), runAt)
      ensures calls == old(calls) + DueCalls(old(jobs), runAt)
      ensures executedJob == (old(executedJob) || DueCalls(old(jobs), runAt) != [])
    {
      var after, fired := RunPending(jobs, runAt);
      jobs := after;
      for k := 0 to |fired|
        invariant calls == old(calls) + fired[..k]
        invariant executedJob == (old(executedJob) || k > 0)
        invariant jobs == after
      {
        assert fired[..k + 1] == fired[..k] + [fired[k]];
        ScheduleTask(fired[k]);
      }
      assert fired[..|fired|] == fired;
    }

    /** One iteration of `schedule_worker`. `now` is the clock when the
        iteration starts (used when schedules are installed), `runAt` the
        clock `run_pending` reads, `elapsed` the measured processing time,
        and `overflow` says that the sleep raised OverflowError. */
    method Tick(now: int, runAt: int, elapsed: int, overflow: bool) returns (res: TickResult)
      requires alive && ValidInterval(interval)
      modifies this
      ensures hasWorker == old(hasWorker) && shouldTerminate == old(shouldTerminate)
      ensures interval == old(interval)
      ensures old(shouldTerminate) ==>
        && res == Stopped && !alive && jobs == []
        && queue == old(queue) && calls == old(calls) && executedJob == old(executedJob)
        && tick == old(tick) && marker == old(marker)
      ensures !old(shouldTerminate) ==>
        var installed := Drain(old(queue), old(jobs), now);
        && alive && queue == []
        && jobs == Advance(installed, runAt)
        && calls == old(calls) + DueCalls(installed, runAt)
        && !executedJob
        && res == (if overflow then Faulted else Slept(SleepFor(interval, elapsed)))
        && tick == old(tick) + 1
        && marker == (if Touches(interval, old(tick))
                      then Some(now + elapsed + (if overflow then 0 else SleepFor(interval, elapsed)))
                      else old(marker))
    {
      if shouldTerminate {
        Exit();
        return Stopped;
      }
      ghost var installed := Drain(queue, jobs, now);
      DrainQueue(now);
      RunJobs(runAt);
      if executedJob {
        executedJob := false;
      }
      res := EndOfTick(now, elapsed, overflow);
    }

    /** The end of a non-stopping iteration: the sleep (or the swallowed
        OverflowError), the liveness step and the counter. */
    method EndOfTick(now: int, elapsed: int, overflow: bool) returns (res: TickResult)
      requires ValidInterval(interval)
      modifies this`marker, this`tick
      ensures res == (if overflow then Faulted else Slept(SleepFor(interval, elapsed)))
      ensures tick == old(tick) + 1
      ensures marker == (if Touches(interval, old(tick))
                         then Some(now + elapsed + (if overflow then 0 else SleepFor(interval, elapsed)))
                         else old(marker))
    {
      var slept := 0;
      if overflow {
        res := Faulted;
      } else {
        slept := SleepFor(interval, elapsed);
        res := Slept(slept);
      }
      if Touches(interval, tick) {
        marker := Some(now + elapsed + slept);
      }
      tick := tick + 1;
    }
  }
}
