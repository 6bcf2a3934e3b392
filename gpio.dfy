/** The GPIO interface both valve drivers write to, seen as a history of
    writes (the shape the tests inspect) and as the per-pin state that
    history leaves behind. */
module Gpio {
  import opened Base

  /** The output levels of the GPIO library, with their numeric values. */
  datatype Level = Low | High {
    function Value(): int {
      if Low? then 0 else 1
    }
  }

  /** One `output(pin, value)` call. */
  datatype PinWrite = PinWrite(pin: int, value: int)

  /** The value most recently written to `pin`, if any. */
  function LastWritten(hist: seq<PinWrite>, pin: int): Option<int>
  {
    if hist == [] then None
    else if hist[|hist| - 1].pin == pin then Some(hist[|hist| - 1].value)
    else LastWritten(hist[..|hist| - 1], pin)
  }

  /** One more write changes what is last written to its own pin and to no other pin. */
  lemma LastWrittenAfterWrite(hist: seq<PinWrite>, w: PinWrite, pin: int)
    ensures LastWritten(hist + [w], pin) == if w.pin == pin then Some(w.value) else LastWritten(hist, pin)
  {
    assert (hist + [w])[..|hist|] == hist;
  }

  /** The pin-to-value map a history leaves when its writes are applied in order. */
  function Replay(hist: seq<PinWrite>): (r: map<int, int>)
    ensures forall w :: w in hist ==> w.pin in r
    ensures forall pin :: pin in r ==> exists w :: w in hist && w.pin == pin && r[pin] == w.value
  {
    if hist == [] then map[]
    else Replay(hist[..|hist| - 1])[hist[|hist| - 1].pin := hist[|hist| - 1].value]
  }

  /** The state map and the history agree: a pin has a value in the map
      exactly when it was written, and the value is the last one written. */
  lemma {:induction false} ReplayIsLastWritten(hist: seq<PinWrite>, pin: int)
    ensures pin in Replay(hist) <==> LastWritten(hist, pin).Some?
    ensures pin in Replay(hist) ==> Replay(hist)[pin] == LastWritten(hist, pin).value
  {
    if hist != [] {
      ReplayIsLastWritten(hist[..|hist| - 1], pin);
    }
  }
}
