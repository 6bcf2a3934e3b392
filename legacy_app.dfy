/** The older application (app/rasp-aqua.py): set each valve for the current
    time, start the scheduler and queue the daily schedule. Its calls into
    the valve and scheduler modules are recorded as a log of steps, in the
    order they are made. */
module LegacyApp {
  import opened Base
  import opened Window
  import opened Scheduler

  /** The valve a step addresses (`TARGET["AIR"]`, `TARGET["CO2"]`). */
  datatype Target = Air | Co2

  /** `MODE.ON` and `MODE.OFF`. */
  datatype Switch = On | Off

  /** The callable every job is bound to: `aquarium.valve.control`. */
  datatype Func = ValveControl

  /** The arguments bound to a job: `(TARGET, MODE)`. */
  datatype Args = Args(target: Target, switch: Switch)

  /** One valve's configuration: its pin and its daily on and off times. */
  datatype ValveConfig = ValveConfig(gpio: int, on: TimeOfDay, off: TimeOfDay)

  datatype Config = Config(air: ValveConfig, co2: ValveConfig)

  /** A call the application makes into another module. */
  datatype Step =
    | ValveInit(air: int, co2: int)
    | SchedulerInit
    | ValveSwitch(target: Target, switch: Switch)
    | QueuePut(tasks: seq<Entry<Func, Args>>)

  /** The mode `init_valve` chooses: ON exactly when the window check says in range. */
  function InitialSwitch(vc: ValveConfig, now: TimeOfDay): (s: Switch)
    ensures s == On <==> CheckTimeInRange(vc.on, vc.off, now).inRange
  {
    if CheckTimeInRange(vc.on, vc.off, now).inRange then On else Off
  }

  /** Except at the very instant of the off time, the chosen mode is the
      one the more recent of the two daily switches set; at the off time
      itself the valve is still switched on. */
  lemma InitialSwitchIsLatestSwitch(vc: ValveConfig, now: TimeOfDay)
    ensures vc.on != vc.off && now != vc.off ==>
      InitialSwitch(vc, now) == if Ahead(vc.on, now) < Ahead(vc.off, now) then On else Off
    ensures now == vc.off ==> InitialSwitch(vc, now) == On
  {
    if vc.on != vc.off && now != vc.off {
      InRangeIffOnIsLatest(vc.on, vc.off, now);
    }
    if now == vc.off && vc.on != vc.off {
      OffInstantIsInRange(vc.on, vc.off);
    } else if now == vc.off {
      DegenerateWindow(vc.on, now);
    }
  }

  /** The schedule entry for one valve switch, named "<target> <mode>". */
  function Task(target: Target, name: string, vc: ValveConfig, switch: Switch): Entry<Func, Args> {
    Entry(name + " " + (if switch == On then "on" else "off"),
          if switch == On then vc.on else vc.off,
          ValveControl,
          Args(target, switch))
  }

  /** The list `set_schedule` queues: air on, air off, co2 on, co2 off. */
  function TaskList(config: Config): (r: seq<Entry<Func, Args>>)
    ensures |r| == 4
  {
    [Task(Air, "air", config.air, On), Task(Air, "air", config.air, Off),
     Task(Co2, "co2", config.co2, On), Task(Co2, "co2", config.co2, Off)]
  }

  /** Entry by entry: names, times and bound modes of the four switches. */
  lemma TaskListSwitchesEachValve(config: Config)
    ensures var r := TaskList(config);
      && r[0].name == "air on" && r[1].name == "air off" && r[2].name == "co2 on" && r[3].name == "co2 off"
      && r[0].at == config.air.on && r[0].args == Args(Air, On)
      && r[1].at == config.air.off && r[1].args == Args(Air, Off)
      && r[2].at == config.co2.on && r[2].args == Args(Co2, On)
      && r[3].at == config.co2.off && r[3].args == Args(Co2, Off)
      && forall i, j :: 0 <= i < j < 4 ==> r[i].name != r[j].name
  {
    var r := TaskList(config);
    assert r[0].name == "air on" && r[1].name == "air off" && r[2].name == "co2 on" && r[3].name == "co2 off";
    assert r[0].name[5] == 'n' && r[1].name[5] == 'f' && r[2].name[5] == 'n' && r[3].name[5] == 'f';
    assert r[0].name[0] == 'a' && r[1].name[0] == 'a' && r[2].name[0] == 'c' && r[3].name[0] == 'c';
  }

  /** The application's calls into the valve and scheduler modules, in order. */
  class App {
    var steps: seq<Step>

    constructor ()
      ensures steps == []
    {
      steps := [];
    }

    /** `init_valve`: air first, then co2, each switched to the mode its window implies. */
    method InitValve(config: Config, now: TimeOfDay)
      modifies this
      ensures steps == old(steps) + [ValveSwitch(Air, InitialSwitch(config.air, now)),
                                     ValveSwitch(Co2, InitialSwitch(config.co2, now))]
    {
      var targets := [Air, Co2];
      var made := [ValveSwitch(Air, InitialSwitch(config.air, now)), ValveSwitch(Co2, InitialSwitch(config.co2, now))];
      for k := 0 to 2
        invariant steps == old(steps) + made[..k]
      {
        var vc := if targets[k] == Air then config.air else config.co2;
        var judge := CheckTimeInRange(vc.on, vc.off, now);
        var mode := if judge.inRange then On else Off;
        steps := steps + [ValveSwitch(targets[k], mode)];
        assert made[..k + 1] == made[..k] + [made[k]];
      }
      assert made[..2] == made;
    }

    /** `set_schedule`: build the task list target by target, mode by mode,
        and put it on the queue as one item. */
    method SetSchedule(config: Config)
      modifies this
      ensures steps == old(steps) + [QueuePut(TaskList(config))]
    {
      var taskList: seq<Entry<Func, Args>> := [];
      var targets := [Air, Co2];
      var switches := [On, Off];
      for i := 0 to 2
        invariant taskList == TaskList(config)[..2 * i]
      {
        var vc, name := if i == 0 then config.air else config.co2, if i == 0 then "air" else "co2";
        for j := 0 to 2
          invariant taskList == TaskList(config)[..2 * i + j]
        {
          taskList := taskList + [Task(targets[i], name, vc, switches[j])];
          assert TaskList(config)[..2 * i + j + 1] == TaskList(config)[..2 * i + j] + [TaskList(config)[2 * i + j]];
        }
      }
      assert TaskList(config)[..4] == TaskList(config);
      steps := steps + [QueuePut(taskList)];
    }

    /** `execute` up to the blocking wait: valve init with the configured
        pins, scheduler init, `init_valve`, then `set_schedule`. */
    method Execute(config: Config, now: TimeOfDay)
      modifies this
      ensures steps == old(steps) + [ValveInit(config.air.gpio, config.co2.gpio), SchedulerInit,
                                     ValveSwitch(Air, InitialSwitch(config.air, now)),
                                     ValveSwitch(Co2, InitialSwitch(config.co2, now)),
                                     QueuePut(TaskList(config))]
    {
      steps := steps + [ValveInit(config.air.gpio, config.co2.gpio), SchedulerInit];
      InitValve(config, now);
      SetSchedule(config);
    }
  }
}
