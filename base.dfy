/** Shared vocabulary: an Option type and the clock units used by every module.
    All durations and instants are integers in milliseconds. */
module Base {

  datatype Option<+T> = None | Some(value: T) {
    function GetOr(default: T): T {
      match this
      case Some(v) => v
      case None => default
    }
  }

  /** Milliseconds in one second and in one day. */
  const Second: int := 1000
  const Day: int := 86_400_000

  /** A wall-clock time of day, in milliseconds since midnight. */
  type TimeOfDay = t: int | 0 <= t < 86_400_000

  /** The time of day written "HH:MM" (what strptime(s, "%H:%M") yields). */
  function FromHourMinute(hour: int, minute: int): (t: TimeOfDay)
    requires 0 <= hour < 24 && 0 <= minute < 60
    ensures t % (60 * Second) == 0
    ensures t / (3600 * Second) == hour
  {
    (hour * 60 + minute) * 60 * Second
  }

  /** Two instants with the same residue modulo Day lying in one half-open
      window of length Day are the same instant. */
  lemma SameResidueInOneDay(a: int, b: int, lo: int)
    requires lo < a <= lo + Day && lo < b <= lo + Day
    requires a % Day == b % Day
    ensures a == b
  {
  }

  /** A non-zero multiple of k is at least k away from zero. */
  lemma {:induction false} MultipleAtLeast(d: int, k: int)
    requires d >= 1 && k > 0
    ensures d * k >= k
  {
    if d > 1 {
      MultipleAtLeast(d - 1, k);
      assert d * k == (d - 1) * k + k;
    }
  }

  /** Euclidean division by a positive divisor is determined by its defining equation. */
  lemma DivModUnique(a: int, k: int, q: int, r: int)
    requires k > 0 && 0 <= r < k && a == q * k + r
    ensures a / k == q && a % k == r
  {
    var q', r' := a / k, a % k;
    assert q' * k + r' == q * k + r;
    if q' < q {
      MultipleAtLeast(q - q', k);
      assert false;
    } else if q < q' {
      MultipleAtLeast(q' - q, k);
      assert false;
    }
  }
}
