/** The job registry of the external `schedule` library, as both scheduler
    generations use it through `every().day.at(time).do(...)`,
    `run_pending()` and `clear()`.

    ASSUMPTION (the library's code is not part of this model): a daily job
    at time of day `at` is first due at the first instant with that time of
    day strictly after the moment it is registered; `run_pending` fires every
    job whose next run is not after the current instant, and a fired job's
    next run is computed the same way from the instant it fired, which is one
    day later whenever the tick came less than a day late (AdvanceIsOneDay).
    Instants are milliseconds on the clock of the configured zone, so that
    midnights are the multiples of Day. */
module Jobs {
  import opened Base

  /** A registered job: its name (the newer scheduler binds one, the older
      none), its daily time, the callable and the arguments bound to it, and
      the instant it is next due. */
  datatype Job<F, A> = Job(name: Option<string>, at: TimeOfDay, func: F, args: A, nextRun: int)

  /** One invocation of a job's callable with its bound arguments. */
  datatype Call<F, A> = Call(func: F, args: A)

  /** The first instant strictly after `now` whose time of day is `at`. */
  function NextRun(at: TimeOfDay, now: int): (r: int)
    ensures now < r <= now + Day
    ensures r % Day == at
  {
    var today := now - now % Day + at;
    DivModUnique(today, Day, now / Day, at);
    DivModUnique(today + Day, Day, now / Day + 1, at);
    if today > now then today else today + Day
  }

  /** A job whose next run is due at a tick less than a day late moves on by exactly one day. */
  lemma AdvanceIsOneDay(at: TimeOfDay, due: int, now: int)
    requires due % Day == at
    requires due <= now < due + Day
    ensures NextRun(at, now) == due + Day
  {
    var r := NextRun(at, now);
    DivModUnique(due + Day, Day, due / Day + 1, at);
    SameResidueInOneDay(r, due + Day, now);
  }

  /** A job's bookkeeping is consistent: its next run falls at its time of day. */
  ghost predicate OnSchedule<F, A>(j: Job<F, A>) {
    j.nextRun % Day == j.at
  }

  predicate IsDue<F, A>(j: Job<F, A>, now: int) {
    j.nextRun <= now
  }

  /** The job after a `run_pending` at `now`: a due job is rescheduled, any other is left alone. */
  function Fire<F, A>(j: Job<F, A>, now: int): (r: Job<F, A>)
    ensures r.name == j.name && r.at == j.at && r.func == j.func && r.args == j.args
    ensures r.nextRun > now
    ensures IsDue(j, now) || OnSchedule(j) ==> OnSchedule(r)
    ensures IsDue(j, now) ==> now < r.nextRun <= now + Day && r.nextRun % Day == j.at
    ensures !IsDue(j, now) ==> r == j
  {
    if IsDue(j, now) then j.(nextRun := NextRun(j.at, now)) else j
  }

  /** The registry after a `run_pending` at `now`. */
  function Advance<F, A>(jobs: seq<Job<F, A>>, now: int): (r: seq<Job<F, A>>)
    ensures |r| == |jobs|
  {
    seq(|jobs|, k requires 0 <= k < |jobs| => Fire(jobs[k], now))
  }

  /** The invocations a `run_pending` at `now` makes, in registry order:
      at most one per job (DueCallsAreTheDueJobs says which). */
  function DueCalls<F, A>(jobs: seq<Job<F, A>>, now: int): (r: seq<Call<F, A>>)
    ensures |r| <= |jobs|
  {
    if jobs == [] then []
    else
      var last := jobs[|jobs| - 1];
      DueCalls(jobs[..|jobs| - 1], now) + (if IsDue(last, now) then [Call(last.func, last.args)] else [])
  }

  /** A `run_pending` makes as many calls as there are due jobs. */
  lemma {:induction false} DueCallsCount<F, A>(jobs: seq<Job<F, A>>, now: int)
    ensures |DueCalls(jobs, now)| == |set k | 0 <= k < |jobs| && IsDue(jobs[k], now)|
  {
    if jobs != [] {
      var n := |jobs| - 1;
      var init := jobs[..n];
      DueCallsCount(init, now);
      var s := set k | 0 <= k < n && IsDue(init[k], now);
      var s' := set k | 0 <= k < |jobs| && IsDue(jobs[k], now);
      assert s' == if IsDue(jobs[n], now) then s + {n} else s;
    }
  }

  /** A call is made exactly when some due job is bound to it. */
  lemma {:induction false} DueCallsAreTheDueJobs<F, A>(jobs: seq<Job<F, A>>, now: int)
    ensures forall c :: c in DueCalls(jobs, now) <==>
              exists k :: 0 <= k < |jobs| && IsDue(jobs[k], now) && c == Call(jobs[k].func, jobs[k].args)
  {
    if jobs != [] {
      var n := |jobs| - 1;
      var init := jobs[..n];
      DueCallsAreTheDueJobs(init, now);
      forall c ensures c in DueCalls(jobs, now) <==>
          exists k :: 0 <= k < |jobs| && IsDue(jobs[k], now) && c == Call(jobs[k].func, jobs[k].args)
      {
        if c in DueCalls(init, now) {
          var k :| 0 <= k < n && IsDue(init[k], now) && c == Call(init[k].func, init[k].args);
          assert jobs[k] == init[k];
        }
        if exists k :: 0 <= k < |jobs| && IsDue(jobs[k], now) && c == Call(jobs[k].func, jobs[k].args) {
          var k :| 0 <= k < |jobs| && IsDue(jobs[k], now) && c == Call(jobs[k].func, jobs[k].args);
          if k < n {
            assert init[k] == jobs[k];
          }
        }
      }
    }
  }

  /** After a `run_pending` nothing is due at the same instant: no
      occurrence is fired twice. */
  lemma NothingDueAfterAdvance<F, A>(jobs: seq<Job<F, A>>, now: int)
    ensures DueCalls(Advance(jobs, now), now) == []
  {
    var r := Advance(jobs, now);
    DueCallsCount(r, now);
    assert (set k | 0 <= k < |r| && IsDue(r[k], now)) == {};
  }

  /** `run_pending` as a loop over the registry: it returns the new registry
      and the invocations made, in order. */
  method RunPending<F, A>(jobs: seq<Job<F, A>>, now: int) returns (after: seq<Job<F, A>>, fired: seq<Call<F, A>>)
    ensures after == Advance(jobs, now)
    ensures fired == DueCalls(jobs, now)
  {
    after, fired := [], [];
    var k := 0;
    while k < |jobs|
      invariant 0 <= k <= |jobs|
      invariant after == Advance(jobs[..k], now)
      invariant fired == DueCalls(jobs[..k], now)
    {
      var j := jobs[k];
      assert jobs[..k + 1][..k] == jobs[..k];
      if IsDue(j, now) {
        fired := fired + [Call(j.func, j.args)];
      }
      after := after + [Fire(j, now)];
      k := k + 1;
    }
    assert jobs[..k] == jobs;
  }

  /** How often one job fires over a run of ticks at the instants `nows`. */
  function FiringsOver<F, A>(j: Job<F, A>, nows: seq<int>): nat
    decreases |nows|
  {
    if nows == [] then 0
    else (if IsDue(j, nows[0]) then 1 else 0) + FiringsOver(Fire(j, nows[0]), nows[1..])
  }

  ghost predicate Ascending(nows: seq<int>) {
    forall i, k :: 0 <= i < k < |nows| ==> nows[i] <= nows[k]
  }

  /** Over ticks with a non-decreasing clock that stay within a day of the
      job's next run, the job fires exactly once if the clock reached that
      run and never otherwise. */
  lemma {:induction false} FiresOncePerOccurrence<F, A>(j: Job<F, A>, nows: seq<int>)
    requires OnSchedule(j)
    requires Ascending(nows)
    requires forall i :: 0 <= i < |nows| ==> nows[i] < j.nextRun + Day
    ensures FiringsOver(j, nows) == if nows != [] && nows[|nows| - 1] >= j.nextRun then 1 else 0
    decreases |nows|
  {
    if nows != [] {
      var t, rest := nows[0], nows[1..];
      if IsDue(j, t) {
        AdvanceIsOneDay(j.at, j.nextRun, t);
        var j' := Fire(j, t);
        assert j'.nextRun == j.nextRun + Day;
        NeverDue(j', rest);
      } else {
        FiresOncePerOccurrence(j, rest);
        if rest == [] {
        } else {
          assert rest[|rest| - 1] == nows[|nows| - 1];
        }
      }
    }
  }

  /** A job whose next run lies beyond every tick of a run does not fire in it. */
  lemma {:induction false} NeverDue<F, A>(j: Job<F, A>, nows: seq<int>)
    requires forall i :: 0 <= i < |nows| ==> nows[i] < j.nextRun
    ensures FiringsOver(j, nows) == 0
    decreases |nows|
  {
    if nows != [] {
      NeverDue(j, nows[1..]);
    }
  }
}
