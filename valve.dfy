/** The newer valve driver (src/rasp_aqua/valve.py): two GPIO pins, one per
    valve, written through the GPIO library, whose write history is kept
    here as the tests see it. */
module Valve {
  import opened Base
  import opened Gpio

  /** The TARGET enumeration, plus `Unknown` for any other enumeration member
      a caller might pass (one with a `name`, which reaches the warning
      branch). A value without a `name` fails earlier, in the log line. */
  datatype Target = Co2 | Air | Unknown

  /** The writes one `control(target, level)` makes, given the pins stored by
      `init`: one write of the level's value to the target's own pin, and
      nothing (only a warning) for any other target. */
  function ControlWrites(air: Option<int>, co2: Option<int>, target: Target, level: Level): (ws: seq<PinWrite>)
    requires target == Air ==> air.Some?
    requires target == Co2 ==> co2.Some?
    ensures |ws| <= 1
    ensures ws == [] <==> target == Unknown
  {
    match target
    case Co2 => [PinWrite(co2.value, level.Value())]
    case Air => [PinWrite(air.value, level.Value())]
    case Unknown => []
  }

  /** After `control`, the target's pin reads the level's value and every
      other pin keeps the value it had; an unknown target changes nothing. */
  lemma ControlSetsOnlyItsPin(hist: seq<PinWrite>, air: Option<int>, co2: Option<int>, target: Target, level: Level, pin: int)
    requires target == Air ==> air.Some?
    requires target == Co2 ==> co2.Some?
    ensures var after := hist + ControlWrites(air, co2, target, level);
      && (target == Air && pin == air.value ==> LastWritten(after, pin) == Some(level.Value()))
      && (target == Co2 && pin == co2.value ==> LastWritten(after, pin) == Some(level.Value()))
      && (target == Unknown || (target == Air && pin != air.value) || (target == Co2 && pin != co2.value)
          ==> LastWritten(after, pin) == LastWritten(hist, pin))
  {
    var ws := ControlWrites(air, co2, target, level);
    if ws == [] {
      assert hist + ws == hist;
    } else {
      LastWrittenAfterWrite(hist, ws[0], pin);
    }
  }

  /** The module globals `gpio_air` and `gpio_co2`, and the history of
      writes the GPIO library has recorded. */
  class Driver {
    var gpioAir: Option<int>
    var gpioCo2: Option<int>
    var hist: seq<PinWrite>

    /** The state right after import: no pins stored, nothing written. */
    constructor ()
      ensures gpioAir == None && gpioCo2 == None && hist == []
    {
      gpioAir, gpioCo2, hist := None, None, [];
    }

    /** `init(air=17, co2=27)`: store the pins, then close both valves, air first. */
    method Init(air: int := 17, co2: int := 27)
      modifies this
      ensures gpioAir == Some(air) && gpioCo2 == Some(co2)
      ensures hist == old(hist) + [PinWrite(air, Low.Value()), PinWrite(co2, Low.Value())]
    {
      gpioAir := Some(air);
      gpioCo2 := Some(co2);
      Control(Air, Low);
      Control(Co2, Low);
    }

    /** `control(target, level)`: at most one write, to the target's pin. */
    method Control(target: Target, level: Level)
      requires target == Air ==> gpioAir.Some?
      requires target == Co2 ==> gpioCo2.Some?
      modifies this`hist
      ensures hist == old(hist) + ControlWrites(gpioAir, gpioCo2, target, level)
    {
      if target == Co2 {
        hist := hist + [PinWrite(gpioCo2.value, level.Value())];
      } else if target == Air {
        hist := hist + [PinWrite(gpioAir.value, level.Value())];
      }
    }
  }
}
