/** The older valve driver (lib/aquarium/valve.py) on its dummy GPIO
    library: two pins, and a mode that opens one valve and closes the
    other. */
module LegacyValve {
  import opened Base
  import opened Gpio

  /** The MODE enumeration, plus any other value a caller might pass. */
  datatype Mode = Co2 | Air | Other

  /** The dummy `GPIO.input`: the value last recorded for the pin, or 0 for a
      pin never written. */
  function Read(state: map<int, int>, pin: int): (v: int)
    ensures pin in state ==> v == state[pin]
    ensures pin !in state ==> v == 0
  {
    if pin in state then state[pin] else 0
  }

  /** A recorded write is read back on its own pin and changes no other pin. */
  lemma ReadAfterOutput(state: map<int, int>, pin: int, value: int, other: int)
    ensures Read(state[pin := value], pin) == value
    ensures other != pin ==> Read(state[pin := value], other) == Read(state, other)
  {
  }

  /** The dummy state is the write history replayed: reading a pin gives the
      value last written to it, or 0 when none was. */
  lemma DummyStateIsReplay(hist: seq<PinWrite>, pin: int)
    ensures Read(Replay(hist), pin) == LastWritten(hist, pin).GetOr(0)
  {
    ReplayIsLastWritten(hist, pin);
  }

  /** The pin state one `control(mode)` leaves: CO2 writes air 0 then co2 1,
      AIR writes air 1 then co2 0, any other mode writes nothing. */
  function ControlState(state: map<int, int>, air: int, co2: int, mode: Mode): (r: map<int, int>)
    ensures r.Keys == if mode == Other then state.Keys else state.Keys + {air, co2}
    ensures forall p :: p in state && p != air && p != co2 ==> p in r && r[p] == state[p]
  {
    match mode
    case Co2 => state[air := 0][co2 := 1]
    case Air => state[air := 1][co2 := 0]
    case Other => state
  }

  /** With two distinct pins, CO2 opens the co2 valve and closes the air
      valve, AIR the reverse, so exactly one of the two pins reads 1; no
      other pin changes, and an unknown mode changes nothing. With the same
      pin for both valves the second write wins. */
  lemma ExactlyOneOpen(state: map<int, int>, air: int, co2: int, mode: Mode, pin: int)
    ensures var after := ControlState(state, air, co2, mode);
      && (mode == Co2 && air != co2 ==> Read(after, air) == 0 && Read(after, co2) == 1)
      && (mode == Air && air != co2 ==> Read(after, air) == 1 && Read(after, co2) == 0)
      && (mode != Other && air != co2 ==> (Read(after, air) == 1) != (Read(after, co2) == 1))
      && (mode == Co2 && air == co2 ==> Read(after, air) == 1)
      && (mode == Air && air == co2 ==> Read(after, air) == 0)
      && (pin != air && pin != co2 ==> Read(after, pin) == Read(state, pin))
      && (mode == Other ==> after == state)
  {
    match mode
    case Co2 =>
      ReadAfterOutput(state, air, 0, pin);
      ReadAfterOutput(state[air := 0], co2, 1, pin);
      ReadAfterOutput(state[air := 0], co2, 1, air);
    case Air =>
      ReadAfterOutput(state, air, 1, pin);
      ReadAfterOutput(state[air := 1], co2, 0, pin);
      ReadAfterOutput(state[air := 1], co2, 0, air);
    case Other =>
  }

  /** The dummy GPIO class and its `state` dictionary. */
  class DummyGpio {
    var state: map<int, int>

    constructor ()
      ensures state == map[]
    {
      state := map[];
    }

    /** `output(gpio, value)`: record the value for the pin. */
    method Output(pin: int, value: int)
      modifies this
      ensures state == old(state)[pin := value]
    {
      state := state[pin := value];
    }

    /** `input(gpio)`. */
    function Input(pin: int): (v: int)
      reads this
      ensures pin in state ==> v == state[pin]
      ensures pin !in state ==> v == 0
    {
      Read(state, pin)
    }
  }

  /** The module globals `gpio_air` and `gpio_co2`, over the dummy GPIO. */
  class Driver {
    var gpioAir: Option<int>
    var gpioCo2: Option<int>
    const gpio: DummyGpio

    /** The state right after import: no pins stored. */
    constructor (g: DummyGpio)
      ensures gpioAir == None && gpioCo2 == None && gpio == g
    {
      gpioAir, gpioCo2, gpio := None, None, g;
    }

    /** `init(air=17, co2=27)`: store the pins, then `control()` with its
        default mode, which leaves the air valve open and the co2 valve
        closed. */
    method Init(air: int := 17, co2: int := 27)
      modifies this, gpio
      ensures gpioAir == Some(air) && gpioCo2 == Some(co2)
      ensures gpio.state == ControlState(old(gpio.state), air, co2, Air)
    {
      gpioAir := Some(air);
      gpioCo2 := Some(co2);
      Control();
    }

    /** `control(mode=AIR)`: two writes for CO2 or AIR, none (a warning) otherwise. */
    method Control(mode: Mode := Air)
      requires gpioAir.Some? && gpioCo2.Some?
      modifies gpio
      ensures gpio.state == ControlState(old(gpio.state), gpioAir.value, gpioCo2.value, mode)
    {
      if mode == Co2 {
        gpio.Output(gpioAir.value, 0);
        gpio.Output(gpioCo2.value, 1);
      } else if mode == Air {
        gpio.Output(gpioAir.value, 1);
        gpio.Output(gpioCo2.value, 0);
      }
    }
  }
}
