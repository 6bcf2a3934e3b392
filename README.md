# rasp-aqua: a verified model of the aquarium valve controller

rasp-aqua drives two solenoid valves of an aquarium, one for air and one for
CO2, from a Raspberry Pi. Each valve has a daily on time and off time. At
start-up the controller sets each valve to the level its on/off window
implies for the current time, then hands a schedule of four daily switches
("air on", "air off", "co2 on", "co2 off") to a worker loop. The worker
installs queued schedules, fires due jobs, sleeps, and touches a liveness
marker that an external health probe checks for age.

The repository holds two generations of this logic, and both are modelled:

- the newer one, `src/rasp_aqua/control.py`, `scheduler.py` and `valve.py`,
  plus the probe `app/healthz.py`;
- the older one, `app/rasp-aqua.py` with `lib/aquarium/scheduler.py` and
  `lib/aquarium/valve.py`, whose GPIO is a dummy dictionary of pin states.

Modules, one per source file (shared pieces in their own modules):

| module | file | models |
|---|---|---|
| `Base` | base.dfy | milliseconds, times of day, `Option`, division facts |
| `Window` | window.dfy | `check_time_in_range`, shared by both generations |
| `Jobs` | jobs.dfy | the job registry of the external `schedule` library, as an explicit assumption |
| `Scheduler` | scheduler.dfy | `src/rasp_aqua/scheduler.py`: the worker as a class, one loop iteration as `Tick` |
| `Healthz` | healthz.dfy | `app/healthz.py`, and what the heartbeat guarantees the probe |
| `Gpio` | gpio.dfy | GPIO writes as a history, and the pin states it leaves |
| `Valve` | valve.dfy | `src/rasp_aqua/valve.py` |
| `Control` | control.dfy | `src/rasp_aqua/control.py` |
| `LegacyValve` | legacy_valve.dfy | `lib/aquarium/valve.py` and its dummy GPIO |
| `LegacyScheduler` | legacy_scheduler.dfy | `lib/aquarium/scheduler.py` |
| `LegacyApp` | legacy_app.dfy | `app/rasp-aqua.py` |

Conventions:

- All durations and instants are integer milliseconds.
- A time of day is the number of milliseconds since midnight.
- Absolute instants are on the clock of the configured zone, so midnights
  are the multiples of `Day`.
- Reading the clock, measuring the processing time, and whether the sleep
  raised `OverflowError` are parameters of `Tick`.
- Each worker thread is a class whose `Tick` method is one iteration of
  its `while True` loop.
- Pins are written to an append-only history in the newer generation (the
  shape its tests inspect) and to a pin-to-value map in the older one;
  `LegacyValve.DummyStateIsReplay` proves the two views agree.

The `schedule` library's code is not part of this model. Module `Jobs`
states its daily-firing rule as an assumption:

- a job registered at instant `now` for time of day `at` is first due at
  the first instant after `now` with that time of day;
- `run_pending` fires every job whose next run is not after the current
  instant;
- a fired job's next run is computed again from the instant it fired,
  which is exactly one day later when the tick is less than a day late.

## Model

| member | source | states |
|---|---|---|
| Window.CheckTimeInRange | src/rasp_aqua/control.py:13-30 | a window with start <= end gives reason 0; a wrapping window gives (true, 1) from the start on, else (true, 2) up to the end, and a false verdict has reason 0 or 1 by branch |
| Window.InRangeIffOnArc | src/rasp_aqua/control.py:19-30 | both branches together: in range iff now lies on the clockwise arc from start to end, both ends included |
| Window.DegenerateWindow | src/rasp_aqua/control.py:19-20 | with start == end the window is in range at that one instant only |
| Window.InRangeIffOnIsLatest | src/rasp_aqua/control.py:19-30 | except at the off instant, in range iff the on time is the more recent of the two daily switches |
| Window.OffInstantIsInRange | src/rasp_aqua/control.py:19-28 | at the off instant itself the verdict is still in range, with reason 0 or 2 |
| Window.DayCrossingExample | src/rasp_aqua/control.py:24-30 | a 20:00-08:00 window is in range at 07:00 and 21:00, out at 09:00 and 12:00, with the expected reason codes |
| Jobs.NextRun | src/rasp_aqua/scheduler.py:94-96 | (assumption) a daily job's first run is strictly after registration, within a day, at the job's time of day |
| Jobs.AdvanceIsOneDay | src/rasp_aqua/scheduler.py:118 | (assumption) a job fired less than a day late is next due exactly one day later |
| Jobs.Fire | src/rasp_aqua/scheduler.py:118 | firing keeps the job's name, time, callable and arguments; a due job's next run moves past now by at most a day, onto its time of day; a job that is not due is left unchanged |
| Jobs.DueCalls | src/rasp_aqua/scheduler.py:118 | one `run_pending` makes at most one call per registered job |
| Jobs.Advance | src/rasp_aqua/scheduler.py:118 | `run_pending` keeps the number of jobs |
| Jobs.DueCallsCount | src/rasp_aqua/scheduler.py:118 | one `run_pending` makes as many calls as there are due jobs |
| Jobs.DueCallsAreTheDueJobs | src/rasp_aqua/scheduler.py:118 | a call is made iff some due job is bound to it |
| Jobs.NothingDueAfterAdvance | src/rasp_aqua/scheduler.py:118 | a second `run_pending` at the same instant fires nothing |
| Jobs.RunPending | src/rasp_aqua/scheduler.py:118 | the loop over the registry returns the advanced registry and the due calls in registry order |
| Jobs.FiresOncePerOccurrence | tests/test_basic.py:137-193 | over ascending ticks within a day of its next run, a job fires exactly once if the clock reached that run, never otherwise |
| Jobs.NeverDue | tests/test_basic.py:137-193 | a job whose next run is after every tick does not fire |
| Scheduler.Bind | src/rasp_aqua/scheduler.py:92-96 | the job for an entry is bound to the entry's name, time, callable and arguments, and is first due within a day |
| Scheduler.Install | src/rasp_aqua/scheduler.py:87-96 | after `set_schedule` there is exactly one job per entry, in entry order, and no earlier job |
| Scheduler.Drain | src/rasp_aqua/scheduler.py:112-116 | draining an empty queue leaves the registry as it was; otherwise the registry has one job per entry of the last queued schedule |
| Scheduler.DrainKeepsLast | src/rasp_aqua/scheduler.py:112-116 | draining several queued schedules leaves exactly the last one's jobs; an empty queue leaves the registry unchanged |
| Scheduler.LastScheduleFires | src/rasp_aqua/scheduler.py:112-118 | installation precedes `run_pending`: the calls of a tick are exactly those of the last queued schedule's entries whose first run has come |
| Scheduler.SleepFor | src/rasp_aqua/scheduler.py:124 | the sleep is never below 0.1 s, is either 0.1 s or the rest of the interval, is at most max(interval, 0.1 s) for elapsed >= 0, and processing plus sleep spans max(interval, elapsed + 0.1 s) |
| Scheduler.Touches | src/rasp_aqua/scheduler.py:132-133 | the marker is touched on tick 0, and on every tick when the interval is 10 s or more |
| Scheduler.TouchCadence | src/rasp_aqua/scheduler.py:132-135 | when k intervals make 10 s, the marker is touched exactly on ticks that are multiples of k, k ticks apart, with none in between |
| Scheduler.Decompose | src/rasp_aqua/scheduler.py:71-74 | hours*3600 + minutes*60 + seconds == idle, with minutes and seconds in [0, 60), and hours >= 0 for idle >= 0 |
| Scheduler.Worker.constructor | src/rasp_aqua/scheduler.py:23-27 | at import there is no worker, the stop flag is clear and no job has run |
| Scheduler.Worker.Init | src/rasp_aqua/scheduler.py:30-41 | `init` starts a worker on a fresh queue with the given interval and tick 0 |
| Scheduler.Worker.Put | src/rasp_aqua/control.py:104 | `queue.put` appends one schedule to the queue |
| Scheduler.Worker.SetSchedule | src/rasp_aqua/scheduler.py:87-96 | the registration loop leaves the registry equal to Install of the entries |
| Scheduler.Worker.ScheduleTask | src/rasp_aqua/scheduler.py:44-62 | a firing appends the bound call and sets the executed flag |
| Scheduler.Worker.Exit | src/rasp_aqua/scheduler.py:107-109 | on the stop flag the registry is cleared and the loop ends |
| Scheduler.Worker.DrainQueue | src/rasp_aqua/scheduler.py:112-116 | the queue ends empty and the registry is Drain of the old queue over the old registry |
| Scheduler.Worker.RunJobs | src/rasp_aqua/scheduler.py:118 | the registry is advanced, the due calls are appended, and the executed flag is set iff something ran |
| Scheduler.Worker.EndOfTick | src/rasp_aqua/scheduler.py:124-135 | the end of an iteration: sleep or fault, the marker touched iff the cadence says so (also after a fault), tick counter + 1 |
| Scheduler.Worker.Tick | src/rasp_aqua/scheduler.py:106-135 | on the stop flag: registry cleared, loop left, nothing drained, fired, touched or counted; otherwise: queue drained, last schedule installed before firing, due calls appended, executed flag false, sleep or fault, marker touched iff the cadence says so (also after a fault), tick counter + 1 |
| Healthz.Threshold | app/healthz.py:30 | the threshold is max(2*interval, 60 s), never below a minute |
| Healthz.CheckLiveness | app/healthz.py:20-36 | healthy iff the marker exists and its age is at most the threshold of the probe's own interval |
| Healthz.CheckLivenessAsWritten | app/healthz.py:20-36 | the code as written: True exactly when CheckLiveness holds, an exception exactly for a present but stale marker, False exactly for a missing one |
| Healthz.ExitStatus | app/healthz.py:61-65 | the probe exits 0 exactly after True |
| Healthz.StaleMarkerRaises | app/healthz.py:30-34 | a 61 s old marker under `interval_sec` 10 raises instead of returning False; on every input the exit status is 0 iff the intended check holds |
| Healthz.ThresholdIsInclusive | app/healthz.py:28-36 | an age equal to the threshold is healthy, one ms more is not, any age up to a minute is healthy, and a missing marker never is |
| Healthz.HealthyIsMonotone | app/healthz.py:30-36 | a marker healthy at some age is healthy at every smaller age |
| Healthz.Cadence | src/rasp_aqua/scheduler.py:132-135 | a touch covers k >= 1 ticks, and k worker intervals make max(interval, 10 s) |
| Healthz.TicksSinceTouch | src/rasp_aqua/scheduler.py:132-135 | the ticks since the last touch are fewer than the cadence, and zero exactly on a touching tick |
| Healthz.TicksSinceTouchStep | src/rasp_aqua/scheduler.py:132-135 | one more tick resets the count by a touch or increases it by one |
| Healthz.HeartbeatIsHealthy | app/healthz.py:20-36 | with ticks of at most `longest` each and a cadence of them within the probe's threshold, the marker is healthy until the next touch |
| Healthz.OnTimeWorkerIsHealthy | app/healthz.py:20-36 | with ticks of exactly one worker interval, the probe reports healthy whenever max(interval, 10 s) fits its threshold, so for every worker interval up to a minute |
| Healthz.SlowWorkerFastProbe | app/healthz.py:22-30 | the probe's interval is its own setting: a 100 s worker seen by a 10 s probe is reported unhealthy |
| Healthz.RunNormally | tests/test_basic.py:196-204 | a started worker running ticks of any processing time (also at interval 0.1 s) has touched the marker, which is fresh after the first tick and no older than the ticks since the last touch times the longest tick; the probe reports healthy until the next touch whenever a cadence of ticks fits its threshold |
| Gpio.LastWrittenAfterWrite | src/rasp_aqua/valve.py:51-55 | one write changes what was last written to its own pin and to no other |
| Gpio.Replay | lib/aquarium/valve.py:44-54 | the dummy state holds every pin ever written, and each value held was written to that pin |
| Gpio.ReplayIsLastWritten | lib/aquarium/valve.py:52-61 | the pin-state map and the write history agree on every pin |
| Valve.ControlWrites | src/rasp_aqua/valve.py:44-55 | `control` makes at most one write, and none exactly for an unknown target |
| Valve.ControlSetsOnlyItsPin | src/rasp_aqua/valve.py:44-55 | CO2 writes the level to the co2 pin only, AIR to the air pin only; other pins keep their last value; an unknown target changes nothing |
| Valve.Driver.constructor | src/rasp_aqua/valve.py:23-24 | no pins are stored and nothing has been written |
| Valve.Driver.Init | src/rasp_aqua/valve.py:27-41 | the pins are stored, then exactly two writes follow: LOW to air, then LOW to co2 |
| Valve.Driver.Control | src/rasp_aqua/valve.py:44-55 | the history grows by exactly ControlWrites |
| Control.InitialLevel | src/rasp_aqua/control.py:40-85 | the level written is the valve's "on" level when the window check says in range, its "off" level otherwise |
| Control.InitialLevelIsLatestSwitch | src/rasp_aqua/control.py:40-85 | except at the off instant, the initial level is the one the more recent daily switch set |
| Control.TaskList | src/rasp_aqua/control.py:88-104 | four entries, all bound to the valve's `control` |
| Control.TaskListSwitchesEachValve | src/rasp_aqua/control.py:88-104 | the order is air on, air off, co2 on, co2 off; each entry has its name, time and (target, level), and the names are distinct |
| Control.Perform | src/rasp_aqua/valve.py:44-55 | the fired calls make at most one write each, and only to the air or the co2 pin |
| Control.OneWritePerFiring | src/rasp_aqua/valve.py:44-55 | fired calls that address a known valve make exactly one write each |
| Control.ScheduleFiringsWriteOnePinEach | src/rasp_aqua/control.py:88-104 | the jobs installed from TaskList fire at most four calls at any instant, and each writes exactly one pin |
| Control.ScheduleCallAddressesAValve | src/rasp_aqua/control.py:88-104 | every call fired by the installed TaskList addresses the air or the co2 valve |
| Control.OneSwitchOneWrite | src/rasp_aqua/control.py:88-104 | when the clock passes exactly one of the four switches, the valves see one write: that switch's level on its valve's pin |
| Control.OneCrossingOneFiring | tests/test_basic.py:137-193 | when the clock passes exactly one scheduled time, that job fires once, and further ticks at that instant fire nothing |
| Control.InitValve | src/rasp_aqua/control.py:34-85 | air first, then co2: each pin gets InitialLevel for the current time |
| Control.SetSchedule | src/rasp_aqua/control.py:88-104 | exactly one list, TaskList, is put on the queue |
| Control.Execute | src/rasp_aqua/control.py:107-116 | the history grows by air LOW, co2 LOW, then the initial air and co2 levels; the worker is running with the given interval and the queue holds exactly TaskList; the registry, calls, flags and marker are untouched |
| Control.Term | src/rasp_aqua/control.py:119-127 | no worker: nothing changes; otherwise the worker is stopped (its registry cleared if it was running), forgotten, and the flag is clear, so a second call changes nothing; queue, calls, counter, marker, executed flag and interval are untouched |
| LegacyValve.Read | lib/aquarium/valve.py:56-61 | `input` returns the recorded value, or 0 for a pin never written |
| LegacyValve.ReadAfterOutput | lib/aquarium/valve.py:52-61 | a recorded value is read back on its pin, and no other pin changes |
| LegacyValve.DummyStateIsReplay | lib/aquarium/valve.py:52-61 | the dummy state reads, pin by pin, the value last written in the write history, or 0 |
| LegacyValve.ControlState | lib/aquarium/valve.py:117-128 | CO2 and AIR add both pins to the recorded state, any other mode adds none, and every other recorded pin keeps its value |
| LegacyValve.ExactlyOneOpen | lib/aquarium/valve.py:117-128 | CO2 leaves air 0 and co2 1, AIR the reverse, so with distinct pins exactly one pin reads 1; other pins and an unknown mode change nothing |
| LegacyValve.DummyGpio.constructor | lib/aquarium/valve.py:44 | the dummy state starts empty |
| LegacyValve.DummyGpio.Output | lib/aquarium/valve.py:52-54 | `output` records the value for the pin |
| LegacyValve.DummyGpio.Input | lib/aquarium/valve.py:56-61 | `input` reads the recorded value, or 0 for a pin never written |
| LegacyValve.Driver.constructor | lib/aquarium/valve.py:97-98 | no pins are stored |
| LegacyValve.Driver.Init | lib/aquarium/valve.py:101-114 | the pins are stored and the state ends in the AIR configuration |
| LegacyValve.Driver.Control | lib/aquarium/valve.py:117-128 | the state becomes ControlState of the mode, AIR by default |
| LegacyScheduler.LegacyBind | lib/aquarium/scheduler.py:30-35 | the job for an entry is bound to its time, callable and arguments, has no name, and is first due within a day |
| LegacyScheduler.LegacyInstall | lib/aquarium/scheduler.py:30-35 | after `set_schedule` there is exactly one job per entry, in entry order |
| LegacyScheduler.LegacyInstallIsUnnamedInstall | lib/aquarium/scheduler.py:30-35 | the older registration equals the newer one with the names dropped |
| LegacyScheduler.LegacySleepFor | lib/aquarium/scheduler.py:64 | the sleep is never below 1 s, is 1 s or the rest of the interval, and is at most max(interval, 1 s) for elapsed >= 0 |
| LegacyScheduler.SleepFloors | lib/aquarium/scheduler.py:64 | the older sleep is never shorter than the newer one, and equal when at least a second of the interval is left |
| LegacyScheduler.TakeOne | lib/aquarium/scheduler.py:58-60 | a tick takes the oldest queued schedule, if any, and installs it; the rest stay queued in order |
| LegacyScheduler.TakeMany | lib/aquarium/scheduler.py:58-60 | n ticks take the first n queued schedules, or all of them when fewer are queued; with none taken the registry is unchanged |
| LegacyScheduler.OneSchedulePerTick | lib/aquarium/scheduler.py:58-60 | k ticks consume exactly the first k queued schedules and leave the k-th installed |
| LegacyScheduler.LegacyWorker.constructor | lib/aquarium/scheduler.py:21-22 | the stop flag is clear and no worker runs |
| LegacyScheduler.LegacyWorker.Start | lib/aquarium/scheduler.py:44-52 | the worker runs with the given interval (10 s by default) and tick 0 |
| LegacyScheduler.LegacyWorker.Put | app/rasp-aqua.py:108 | `queue.put` appends one schedule |
| LegacyScheduler.LegacyWorker.SetSchedule | lib/aquarium/scheduler.py:30-35 | the registration loop leaves the registry equal to LegacyInstall of the entries |
| LegacyScheduler.LegacyWorker.RunJobs | lib/aquarium/scheduler.py:62 | the registry is advanced and the due calls are appended |
| LegacyScheduler.LegacyWorker.TakeSchedule | lib/aquarium/scheduler.py:58-60 | the intake is TakeOne of the queue and registry, and it reports whether the schedule taken was empty |
| LegacyScheduler.LegacyWorker.EndOfTick | lib/aquarium/scheduler.py:64-75 | the end of an iteration: sleep floored at 1 s or fault, the marker touched iff the cadence says so, tick counter + 1 |
| LegacyScheduler.LegacyWorker.Tick | lib/aquarium/scheduler.py:30-75 | on the stop flag the loop ends and the registry is kept; taking an empty schedule clears the registry and ends the thread (TypeError from the missing idle time) with nothing fired, touched or counted; otherwise at most one schedule is taken, due jobs fire, the sleep is floored at 1 s, the marker is touched by the cadence (also after a fault) and the counter grows by one |
| LegacyApp.InitialSwitch | app/rasp-aqua.py:28-92 | ON exactly when the window check says in range; the older check has the same branches and reason codes as Window.CheckTimeInRange, only its clock (naive local time, the `now` parameter) differs |
| LegacyApp.InitialSwitchIsLatestSwitch | app/rasp-aqua.py:49-92 | except at the off instant, the mode is the one the more recent daily switch set; at the off instant it is ON |
| LegacyApp.TaskList | app/rasp-aqua.py:95-108 | four entries |
| LegacyApp.TaskListSwitchesEachValve | app/rasp-aqua.py:95-108 | the order is air on, air off, co2 on, co2 off, with names "<target> <mode>", the configured times and (target, mode) arguments |
| LegacyApp.App.constructor | app/rasp-aqua.py:111-121 | before `execute` no call into the other modules has been made |
| LegacyApp.App.InitValve | app/rasp-aqua.py:49-92 | air first, then co2, each switched to InitialSwitch |
| LegacyApp.App.SetSchedule | app/rasp-aqua.py:95-108 | exactly one list, TaskList, is put on the queue |
| LegacyApp.App.Execute | app/rasp-aqua.py:111-121 | the calls are, in order: valve init with the configured pins, scheduler init, the two initial switches, the queued task list |

## Left out

- Threads, `threading.Event`, `join`, `ThreadPool` and `multiprocessing.Queue`: the worker is a sequence of `Tick` calls, the queue a `seq`, `term` plain state updates; no interleavings are modelled.
- The `schedule` library's code: `next_run` is the assumption stated in `Jobs`, and `idle_seconds` and the zone resolution of `every().day.at(...)` are not modelled.
- Jobs.RunPending: fires due jobs in registry order; the library sorts them by next run first.
- Clock reads, `time.sleep` and zone offsets are parameters; sub-millisecond precision is dropped.
- Scheduler.Worker.Tick: `OverflowError` is modelled as raised by the sleep only (processing done, no sleep); one raised earlier in the iteration is not modelled.
- Scheduler.Worker.Tick: an exception raised by a job's callable, which ends the worker thread in the source, is not modelled.
- Scheduler.Worker.Init: a second `init` while a worker runs is excluded; the source would start a second thread.
- Scheduler.Touches: the cadence is modelled for intervals of 10 s or more and for divisors of 10 s; for other intervals `i % (10 / interval)` is floating-point arithmetic.
- Scheduler.Decompose: works on whole seconds; the source's idle time is a float.
- The timezone passed to `src/rasp_aqua/scheduler.py` is subscripted like a mapping at lines 52 and 94 while `control.py` passes a pytz object; that path and the "Now is" log lines are not modelled.
- `schedule_status`: only its divmod is modelled; the sorted job listing and log output are not.
- Healthz.CheckLiveness: states the evidently intended False for a stale marker; the code as written raises TypeError there instead (see Findings and Healthz.CheckLivenessAsWritten). The rows that rest on it (ThresholdIsInclusive, SlowWorkerFastProbe, RunNormally) speak of that intended verdict; the exit status agrees either way.
- LegacyScheduler.LegacyWorker.Tick and LegacyScheduler.LegacyWorker.EndOfTick: `OverflowError` is modelled as raised by the sleep only (intake and jobs done, no sleep); one raised by `set_schedule` or `run_pending`, which skips the rest of the iteration, is not modelled.
- LegacyScheduler.LegacyWorker.Tick and LegacyScheduler.LegacyWorker.RunJobs: an exception raised by a job's callable, which ends the older worker thread too, is not modelled.
- Logging, log messages and reason strings.
- File I/O: the liveness marker is the instant of its last touch (`my_lib.footprint.update`, `touch`, `mkdir`, `stat().st_mtime`); the probe takes existence and age as parameters.
- `is_rasberry_pi` and its `/proc/cpuinfo` read; the real GPIO libraries and their `setwarnings`/`setmode`/`setup` calls.
- Valve.Driver.Control: requires `init` to have stored the pins; before that the source passes `None` to the GPIO library.
- LegacyValve.Driver.Control: requires `init` to have stored the pins; before that the dummy GPIO records the value under the key `None`.
- `strptime` parsing of "HH:MM": times of day are integers.
- CLI (`docopt`), configuration loading, the `__main__` blocks, and the SIGTERM handler of `src/app.py`, which is not part of this model.
- The old generation's wiring: `app/rasp-aqua.py` uses `TARGET` and `MODE.ON`/`MODE.OFF`, which `lib/aquarium/valve.py` does not define, and calls `aquarium.scheduler.init` with three arguments although it takes none. Each file's own logic is modelled; `LegacyApp` records its calls as steps.
- LegacyScheduler.TakeMany: the intake only; an empty schedule among those taken ends the worker thread, which LegacyWorker.Tick models and TakeMany does not.
- LegacyScheduler.OneSchedulePerTick: holds for the intake; with an empty schedule among the first k the worker thread has already ended (see LegacyWorker.Tick).
- Valve.Driver.Control: a target that is not an enumeration member has no `name`, and the log line of `control` raises AttributeError before any write; this path is not modelled.
- Healthz.RunNormally: the ticks run without `OverflowError`, with `run_pending` reading the clock at the start of the tick.
- LegacyApp.App.Execute: ends before the blocking `result.get()`.
- `aquarium.scheduler.init` only creates a lock that nothing uses; it appears as the `SchedulerInit` step.

## Findings

| source | as written | input that shows it | evidently intended | confidence | as-written member | corrected member |
|---|---|---|---|---|---|---|
| app/healthz.py:31-34 | the stale-marker warning formats `elapsed.total_seconds`, the method itself, with the spec `{:,}`, which raises TypeError, so `return False` is never reached | marker present, 61 s old, `interval_sec` 10 | format `elapsed.total_seconds()` and return False | high; not executed | Healthz.StaleMarkerRaises | Healthz.CheckLiveness |
