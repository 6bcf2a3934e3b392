/** The newer controller (src/rasp_aqua/control.py): it sets each valve to
    the level its on/off window implies, builds the daily schedule of the
    four valve switches and hands it to the scheduler, and stops the
    scheduler on request. */
module Control {
  import opened Base
  import opened Gpio
  import opened Window
  import opened Jobs
  import opened Scheduler
  import opened Valve

  /** The callable every job is bound to: `rasp_aqua.valve.control`. */
  datatype Func = ValveControl

  /** The arguments bound to a job: `(TARGET, level)`. */
  datatype ValveArgs = ValveArgs(target: Target, level: Level)

  /** The configuration of one valve: its pin, its daily on and off times,
      and the level that "on" and "off" mean for it. */
  datatype ValveConfig = ValveConfig(gpio: int, on: TimeOfDay, off: TimeOfDay, onLevel: Level, offLevel: Level)

  datatype Config = Config(air: ValveConfig, co2: ValveConfig)

  datatype Mode = On | Off

  /** The level `init_valve` writes: the "on" level exactly when the window check says in range. */
  function InitialLevel(vc: ValveConfig, now: TimeOfDay): (l: Level)
    ensures CheckTimeInRange(vc.on, vc.off, now).inRange ==> l == vc.onLevel
    ensures !CheckTimeInRange(vc.on, vc.off, now).inRange ==> l == vc.offLevel
  {
    if CheckTimeInRange(vc.on, vc.off, now).inRange then vc.onLevel else vc.offLevel
  }

  /** Except at the very instant of the off time, `init_valve` puts a valve
      where the more recent of its two daily switches would have left it. */
  lemma InitialLevelIsLatestSwitch(vc: ValveConfig, now: TimeOfDay)
    requires vc.on != vc.off && now != vc.off
    ensures InitialLevel(vc, now) == if Ahead(vc.on, now) < Ahead(vc.off, now) then vc.onLevel else vc.offLevel
  {
    InRangeIffOnIsLatest(vc.on, vc.off, now);
  }

  /** The schedule entry for one valve switch: named "<target> <mode>", at
      the configured time, bound to the valve and the configured level. */
  function Task(target: Target, name: string, vc: ValveConfig, mode: Mode): Entry<Func, ValveArgs> {
    var suffix := if mode == On then "on" else "off";
    Entry(name + " " + suffix,
          if mode == On then vc.on else vc.off,
          ValveControl,
          ValveArgs(target, if mode == On then vc.onLevel else vc.offLevel))
  }

  /** The list `set_schedule` queues: air on, air off, co2 on, co2 off. */
  function TaskList(config: Config): (r: seq<Entry<Func, ValveArgs>>)
    ensures |r| == 4
  {
    [Task(Air, "air", config.air, On), Task(Air, "air", config.air, Off),
     Task(Co2, "co2", config.co2, On), Task(Co2, "co2", config.co2, Off)]
  }

  /** Each valve's two entries are at its on and off times with its on and
      off levels; the four names are distinct. */
  lemma TaskListSwitchesEachValve(config: Config)
    ensures var r := TaskList(config);
      && r[0].name == "air on" && r[1].name == "air off" && r[2].name == "co2 on" && r[3].name == "co2 off"
      && r[0].at == config.air.on && r[0].args == ValveArgs(Air, config.air.onLevel)
      && r[1].at == config.air.off && r[1].args == ValveArgs(Air, config.air.offLevel)
      && r[2].at == config.co2.on && r[2].args == ValveArgs(Co2, config.co2.onLevel)
      && r[3].at == config.co2.off && r[3].args == ValveArgs(Co2, config.co2.offLevel)
      && forall i, j :: 0 <= i < j < 4 ==> r[i].name != r[j].name
  {
    var r := TaskList(config);
    assert r[0].name == "air on" && r[1].name == "air off" && r[2].name == "co2 on" && r[3].name == "co2 off";
    assert r[0].name[5] == 'n' && r[1].name[5] == 'f' && r[2].name[5] == 'n' && r[3].name[5] == 'f';
    assert r[0].name[0] == 'a' && r[1].name[0] == 'a' && r[2].name[0] == 'c' && r[3].name[0] == 'c';
  }

  /** The valve writes that a sequence of fired jobs makes, given the pins. */
  function Perform(air: int, co2: int, calls: seq<Call<Func, ValveArgs>>): (r: seq<PinWrite>)
    ensures |r| <= |calls|
    ensures forall k :: 0 <= k < |r| ==> r[k].pin == air || r[k].pin == co2
  {
    if calls == [] then []
    else Perform(air, co2, calls[..|calls| - 1])
         + ControlWrites(Some(air), Some(co2), calls[|calls| - 1].args.target, calls[|calls| - 1].args.level)
  }

  /** Every fired job of the controller's schedule writes exactly one pin. */
  lemma {:induction false} OneWritePerFiring(air: int, co2: int, calls: seq<Call<Func, ValveArgs>>)
    requires forall k :: 0 <= k < |calls| ==> calls[k].args.target != Unknown
    ensures |Perform(air, co2, calls)| == |calls|
  {
    if calls != [] {
      OneWritePerFiring(air, co2, calls[..|calls| - 1]);
    }
  }

  /** Moving the clock past exactly one job's next run fires that one job
      once, and a further tick at the same instant fires nothing: one clock
      move, one valve write. */
  lemma OneCrossingOneFiring(jobs: seq<Job<Func, ValveArgs>>, t: int, k: int)
    requires 0 <= k < |jobs| && IsDue(jobs[k], t)
    requires forall i :: 0 <= i < |jobs| && i != k ==> !IsDue(jobs[i], t)
    ensures DueCalls(jobs, t) == [Call(jobs[k].func, jobs[k].args)]
    ensures DueCalls(Advance(jobs, t), t) == []
  {
    DueCallsCount(jobs, t);
    DueCallsAreTheDueJobs(jobs, t);
    assert (set i | 0 <= i < |jobs| && IsDue(jobs[i], t)) == {k};
    var c := Call(jobs[k].func, jobs[k].args);
    assert c in DueCalls(jobs, t);
    assert |DueCalls(jobs, t)| == 1;
    assert DueCalls(jobs, t)[0] in DueCalls(jobs, t);
    NothingDueAfterAdvance(jobs, t);
  }

  /** The jobs the controller's schedule installs address only the two
      valves, so whatever moment the clock reaches, at most four of them
      fire and each firing writes exactly one pin. */
  lemma ScheduleFiringsWriteOnePinEach(config: Config, air: int, co2: int, now: int, t: int)
    ensures var calls := DueCalls(Install(TaskList(config), now), t);
      |calls| <= 4 && |Perform(air, co2, calls)| == |calls|
  {
    var calls := DueCalls(Install(TaskList(config), now), t);
    forall k | 0 <= k < |calls|
      ensures calls[k].args.target != Unknown
    {
      ScheduleCallAddressesAValve(config, now, t, calls[k]);
    }
    OneWritePerFiring(air, co2, calls);
  }

  /** A call fired by the controller's schedule addresses one of the two valves. */
  lemma ScheduleCallAddressesAValve(config: Config, now: int, t: int, c: Call<Func, ValveArgs>)
    requires c in DueCalls(Install(TaskList(config), now), t)
    ensures c.args.target != Unknown
  {
    var jobs := Install(TaskList(config), now);
    DueCallsAreTheDueJobs(jobs, t);
    var i :| 0 <= i < |jobs| && IsDue(jobs[i], t) && c == Call(jobs[i].func, jobs[i].args);
    TaskListSwitchesEachValve(config);
  }

  /** When the clock passes exactly one switch of the schedule, the valves
      see one write: the configured level of that switch, on its valve's pin. */
  lemma OneSwitchOneWrite(config: Config, air: int, co2: int, now: int, t: int, k: int)
    requires 0 <= k < 4
    requires IsDue(Install(TaskList(config), now)[k], t)
    requires forall i :: 0 <= i < 4 && i != k ==> !IsDue(Install(TaskList(config), now)[i], t)
    ensures Perform(air, co2, DueCalls(Install(TaskList(config), now), t))
      == [PinWrite(if k < 2 then air else co2, TaskList(config)[k].args.level.Value())]
  {
    var jobs := Install(TaskList(config), now);
    OneCrossingOneFiring(jobs, t, k);
    TaskListSwitchesEachValve(config);
    var calls := [Call(jobs[k].func, jobs[k].args)];
    assert calls[..0] == [];
  }

  /** `init_valve`: air first, then co2, each set to the level its window implies. */
  method InitValve(config: Config, now: TimeOfDay, d: Driver)
    requires d.gpioAir.Some? && d.gpioCo2.Some?
    modifies d`hist
    ensures d.hist == old(d.hist) + [PinWrite(d.gpioAir.value, InitialLevel(config.air, now).Value()),
                                     PinWrite(d.gpioCo2.value, InitialLevel(config.co2, now).Value())]
  {
    var targets := [Air, Co2];
    var writes := [PinWrite(d.gpioAir.value, InitialLevel(config.air, now).Value()),
                   PinWrite(d.gpioCo2.value, InitialLevel(config.co2, now).Value())];
    for k := 0 to 2
      invariant d.hist == old(d.hist) + writes[..k]
    {
      var vc := if targets[k] == Air then config.air else config.co2;
      var judge := CheckTimeInRange(vc.on, vc.off, now);
      var mode := if judge.inRange then On else Off;
      d.Control(targets[k], if mode == On then vc.onLevel else vc.offLevel);
      assert writes[..k + 1] == writes[..k] + [writes[k]];
    }
    assert writes[..2] == writes;
  }

  /** `set_schedule`: build the task list target by target, mode by mode,
      and put it on the queue as one item. */
  method SetSchedule(config: Config, w: Worker<Func, ValveArgs>)
    modifies w`queue
    ensures w.queue == old(w.queue) + [TaskList(config)]
  {
    var taskList: seq<Entry<Func, ValveArgs>> := [];
    var targets := [Air, Co2];
    var modes := [On, Off];
    for i := 0 to 2
      invariant taskList == TaskList(config)[..2 * i]
    {
      var vc, name := if i == 0 then config.air else config.co2, if i == 0 then "air" else "co2";
      for j := 0 to 2
        invariant taskList == TaskList(config)[..2 * i + j]
      {
        taskList := taskList + [Task(targets[i], name, vc, modes[j])];
        assert TaskList(config)[..2 * i + j + 1] == TaskList(config)[..2 * i + j] + [TaskList(config)[2 * i + j]];
      }
    }
    assert TaskList(config)[..4] == TaskList(config);
    w.Put(taskList);
  }

  /** `execute`: close both valves through `valve.init`, start the worker,
      set each valve for the current time, then queue the schedule. */
  method Execute(config: Config, now: TimeOfDay, d: Driver, w: Worker<Func, ValveArgs>, checkInterval: int := 10 * Second)
    requires !w.alive && ValidInterval(checkInterval)
    modifies d, w
    ensures d.gpioAir == Some(config.air.gpio) && d.gpioCo2 == Some(config.co2.gpio)
    ensures d.hist == old(d.hist) + [PinWrite(config.air.gpio, Low.Value()), PinWrite(config.co2.gpio, Low.Value()),
                                     PinWrite(config.air.gpio, InitialLevel(config.air, now).Value()),
                                     PinWrite(config.co2.gpio, InitialLevel(config.co2, now).Value())]
    ensures w.hasWorker && w.alive && w.tick == 0 && w.interval == checkInterval
    ensures w.queue == [TaskList(config)]
    ensures w.jobs == old(w.jobs) && w.calls == old(w.calls) && w.shouldTerminate == old(w.shouldTerminate)
    ensures w.executedJob == old(w.executedJob) && w.marker == old(w.marker)
  {
    d.Init(config.air.gpio, config.co2.gpio);
    w.Init(checkInterval);
    InitValve(config, now, d);
    SetSchedule(config, w);
  }

  /** `term`: nothing when no worker was started; otherwise raise the stop
      flag, wait for the loop to leave (it clears the registry on its way
      out), forget the worker and lower the flag again. Afterwards there is
      no worker, so a second call changes nothing. */
  method Term<F, A>(w: Worker<F, A>)
    modifies w
    ensures !w.hasWorker
    ensures !old(w.hasWorker) ==> w.alive == old(w.alive) && w.shouldTerminate == old(w.shouldTerminate) && w.jobs == old(w.jobs)
    ensures old(w.hasWorker) ==> !w.shouldTerminate && !w.alive
    ensures old(w.hasWorker) && old(w.alive) ==> w.jobs == []
    ensures old(w.hasWorker) && !old(w.alive) ==> w.jobs == old(w.jobs)
    ensures w.queue == old(w.queue) && w.calls == old(w.calls) && w.tick == old(w.tick) && w.marker == old(w.marker)
    ensures w.executedJob == old(w.executedJob) && w.interval == old(w.interval)
  {
    if !w.hasWorker {
      return;
    }
    w.shouldTerminate := true;
    // join(): the loop sees the flag at the top of its next iteration.
    if w.alive {
      w.Exit();
    }
    w.hasWorker := false;
    w.shouldTerminate := false;
  }
}
