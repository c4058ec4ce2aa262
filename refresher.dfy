/**
 * The background refresher: a list of callbacks and a loop that, every `refreshPeriod` time
 * units counted in steps of `timeoutGranule`, runs them all, until its close flag is set.
 * The thread is not modelled; the loop is a method that is told after how many steps it
 * sees the flag, and it returns the invoked callbacks in invocation order.
 */
module Refresher {

  import opened Errors

  /** `fs` run `n` times over, in order. */
  function Repeat<F>(fs: seq<F>, n: nat): (r: seq<F>)
    ensures |r| == n * |fs|
  {
    if n == 0 then [] else Repeat(fs, n - 1) + fs
  }

  /**
   * The number of loop steps from one refresh to the next: the first step count at which
   * the elapsed time, `steps * granule`, reaches `period`, and at least one. Zero stands for
   * never, which is the case of a zero granule and a positive period.
   */
  function Period(granule: nat, period: nat): (k: nat)
    ensures granule > 0 || period == 0 ==> k >= 1
  {
    if period == 0 then 1
    else if granule == 0 then 0
    else (period + granule - 1) / granule
  }

  /** The number of refreshes in the first `steps` steps of the loop. */
  function Refreshes(steps: nat, granule: nat, period: nat): nat
  {
    var k := Period(granule, period);
    if k == 0 then 0 else steps / k
  }

  /** The elapsed-time counter after `steps` steps. */
  function Passed(steps: nat, granule: nat, period: nat): nat
  {
    var k := Period(granule, period);
    if k == 0 then 0 else (steps % k) * granule
  }

  lemma MulMonotone(a: nat, b: nat, g: nat)
    requires a <= b
    ensures a * g <= b * g
  {
  }

  /** Elapsed time reaches the period after exactly `Period` steps, not before. */
  lemma PeriodReached(granule: nat, period: nat, j: nat)
    requires Period(granule, period) >= 1 && 1 <= j <= Period(granule, period)
    ensures j * granule >= period <==> j == Period(granule, period)
  {
    var k := Period(granule, period);
    if period > 0 {
      var n := period + granule - 1;
      assert n == k * granule + n % granule;
      assert k * granule >= period;
      if j < k {
        MulMonotone(j, k - 1, granule);
        assert (k - 1) * granule == k * granule - granule;
      }
    }
  }

  lemma MulNext(a: nat, b: nat, k: nat)
    ensures a < b ==> a * k + k <= b * k
  {
    if a < b {
      MulMonotone(a + 1, b, k);
      assert (a + 1) * k == a * k + k;
    }
  }

  lemma DivModUnique(n: nat, k: nat, q: nat, r: nat)
    requires k > 0 && r < k && n == q * k + r
    ensures n / k == q && n % k == r
  {
    var q', r' := n / k, n % k;
    assert n == q' * k + r';
    if q' < q {
      MulNext(q', q, k);
      assert false;
    } else if q < q' {
      MulNext(q, q', k);
      assert false;
    }
  }

  /** One more step: the step counter modulo the period either moves on or wraps with a refresh. */
  lemma StepCount(steps: nat, k: nat)
    requires k > 0
    ensures steps % k + 1 < k ==> (steps + 1) % k == steps % k + 1 && (steps + 1) / k == steps / k
    ensures steps % k + 1 == k ==> (steps + 1) % k == 0 && (steps + 1) / k == steps / k + 1
  {
    var q, r := steps / k, steps % k;
    if r + 1 < k {
      DivModUnique(steps + 1, k, q, r + 1);
    } else {
      assert steps + 1 == (q + 1) * k;
      DivModUnique(steps + 1, k, q + 1, 0);
    }
  }

  lemma RepeatMore<F>(fs: seq<F>, n: nat)
    ensures Repeat(fs, n + 1) == Repeat(fs, n) + fs
  {
  }

  /** The invocation numbered `raisesAt` is among those of the run `all`. */
  predicate Raises<F>(all: seq<F>, raisesAt: Option<nat>)
  {
    raisesAt.Some? && raisesAt.value < |all|
  }

  /**
   * The invocations actually attempted when the one numbered `raisesAt` raises: the run up to
   * and including that one, or the whole run when it never comes.
   */
  function Attempted<F>(all: seq<F>, raisesAt: Option<nat>): (r: seq<F>)
    ensures Raises(all, raisesAt) ==> |r| == raisesAt.value + 1 && r == all[..|r|]
    ensures !Raises(all, raisesAt) ==> r == all
  {
    if Raises(all, raisesAt) then all[..raisesAt.value + 1] else all
  }

  /** A run of fewer periods is the start of a run of more. */
  lemma {:induction false} RepeatPrefix<F>(fs: seq<F>, a: nat, b: nat)
    requires a <= b
    ensures |Repeat(fs, a)| <= |Repeat(fs, b)| && Repeat(fs, b)[..|Repeat(fs, a)|] == Repeat(fs, a)
    decreases b
  {
    if a < b {
      RepeatPrefix(fs, a, b - 1);
      assert Repeat(fs, b) == Repeat(fs, b - 1) + fs;
      assert Repeat(fs, b)[..|Repeat(fs, b - 1)|] == Repeat(fs, b - 1);
      MulMonotone(a, b - 1, |fs|);
    }
  }

  /**
   * One step of the loop: the elapsed time, with the granule added, reaches the period exactly
   * when the step completes a period; then it restarts from 0, and otherwise it carries on.
   */
  lemma Tick(steps: nat, granule: nat, period: nat)
    ensures Passed(steps, granule, period) + granule >= period ==>
              Passed(steps + 1, granule, period) == 0
              && Refreshes(steps + 1, granule, period) == Refreshes(steps, granule, period) + 1
    ensures Passed(steps, granule, period) + granule < period ==>
              Passed(steps + 1, granule, period) == Passed(steps, granule, period) + granule
              && Refreshes(steps + 1, granule, period) == Refreshes(steps, granule, period)
  {
    var k := Period(granule, period);
    if k > 0 {
      StepCount(steps, k);
      PeriodReached(granule, period, steps % k + 1);
    }
  }

  /** The run after one more period, still within a run that goes on to step `closeAt`. */
  lemma NextRun<F>(fs: seq<F>, steps: nat, closeAt: nat, granule: nat, period: nat)
    requires steps < closeAt
    requires Refreshes(steps + 1, granule, period) == Refreshes(steps, granule, period) + 1
    ensures Repeat(fs, Refreshes(steps, granule, period)) + fs == Repeat(fs, Refreshes(steps + 1, granule, period))
    ensures var start, all := Repeat(fs, Refreshes(steps + 1, granule, period)), Repeat(fs, Refreshes(closeAt, granule, period));
            |start| <= |all| && all[..|start|] == start
  {
    RefreshesMonotone(steps + 1, closeAt, granule, period);
    RepeatPrefix(fs, Refreshes(steps + 1, granule, period), Refreshes(closeAt, granule, period));
    RepeatMore(fs, Refreshes(steps, granule, period));
  }

  /** A raise inside a start of the run is a raise of the run, and cuts it at the same place. */
  lemma AttemptedWithin<F>(all: seq<F>, start: seq<F>, n: nat)
    requires |start| <= |all| && all[..|start|] == start && n < |start|
    ensures Raises(all, Some(n)) && Attempted(all, Some(n)) == start[..n + 1]
  {
  }

  /** More steps never mean fewer refreshes. */
  lemma {:induction false} RefreshesMonotone(s: nat, t: nat, granule: nat, period: nat)
    requires s <= t
    ensures Refreshes(s, granule, period) <= Refreshes(t, granule, period)
    decreases t
  {
    var k := Period(granule, period);
    if s < t && k > 0 {
      RefreshesMonotone(s, t - 1, granule, period);
      StepCount(t - 1, k);
    }
  }

  /** With the default period of 30 and granule of 1, the callbacks run every 30 steps. */
  lemma DefaultRefreshes(steps: nat)
    ensures Refreshes(steps, 1, 30) == steps / 30
  {
  }

  /** A zero granule never reaches a positive period: nothing is ever refreshed. */
  lemma ZeroGranuleNeverRefreshes(steps: nat, period: nat)
    requires period > 0
    ensures Refreshes(steps, 0, period) == 0
  {
  }

  class Refresher<F> {
    const refreshPeriod: nat
    const timeoutGranule: nat
    var functions: seq<F>
    var enabled: bool
    var shouldClose: bool
    /** Whether the current cycle thread object has been started. */
    var threadStarted: bool

    /** A thread object can be started once, and only the enabled flag starts it. */
    predicate Valid()
      reads this
    {
      threadStarted == enabled
    }

    predicate Initial()
      reads this
    {
      functions == [] && !enabled && !shouldClose && !threadStarted
    }

    constructor (refreshPeriod: nat, timeoutGranule: nat)
      ensures this.refreshPeriod == refreshPeriod && this.timeoutGranule == timeoutGranule
      ensures Initial() && Valid()
    {
      this.refreshPeriod := refreshPeriod;
      this.timeoutGranule := timeoutGranule;
      functions := [];
      enabled := false;
      shouldClose := false;
      threadStarted := false;
    }

    /** `_clean`: no callbacks, not running, a fresh thread object, the close flag down. */
    method Clean()
      modifies this
      ensures Initial() && Valid()
    {
      functions := [];
      enabled := false;
      shouldClose := false;
      threadStarted := false;
    }

    /** `start_if_not`: start the loop unless it is already enabled. */
    method StartIfNot() returns (started: bool)
      requires Valid()
      modifies this
      ensures Valid() && enabled
      ensures started == !old(enabled)
      ensures functions == old(functions) && shouldClose == old(shouldClose)
    {
      if enabled {
        return false;
      }
      threadStarted := true;
      enabled := true;
      started := true;
    }

    /** `add_refresh_function`: append the callback, then make sure the loop runs. */
    method AddRefreshFunction(f: F) returns (started: bool)
      requires Valid()
      modifies this
      ensures Valid() && enabled
      ensures functions == old(functions) + [f]
      ensures started == !old(enabled) && shouldClose == old(shouldClose)
    {
      functions := functions + [f];
      started := StartIfNot();
    }

    /** `cleanup_and_stop`: raise the close flag, wait for the loop, and return to the initial state. */
    method CleanupAndStop()
      modifies this
      ensures Initial() && Valid()
    {
      shouldClose := true;
      Clean();
    }

    /**
     * One refresh: every callback in registration order, after the invocations `done`, until
     * the one numbered `raisesAt` raises.
     */
    method RunAll(done: seq<F>, raisesAt: Option<nat>) returns (runs: seq<F>, raised: bool)
      requires raisesAt.Some? ==> raisesAt.value >= |done|
      ensures raised <==> raisesAt.Some? && raisesAt.value < |done| + |functions|
      ensures raised ==> runs == (done + functions)[..raisesAt.value + 1]
      ensures !raised ==> runs == done + functions
    {
      runs := done;
      raised := false;
      var i := 0;
      while i < |functions|
        invariant 0 <= i <= |functions|
        invariant runs == done + functions[..i]
        invariant raisesAt.Some? ==> raisesAt.value >= |runs|
      {
        runs := runs + [functions[i]];
        assert functions[..i + 1] == functions[..i] + [functions[i]];
        if raisesAt == Some(|runs| - 1) {
          assert (done + functions)[..|runs|] == runs;
          raised := true;
          return;
        }
        i := i + 1;
      }
      assert functions[..i] == functions;
    }

    /**
     * `refresh_cycle`, for a run in which the close flag is first seen at step `closeAt`
     * (counting from 0) and, when `raisesAt` is `Some(n)`, the callback invocation numbered
     * `n` (counting from 0, in invocation order) raises. Each step adds the granule to the
     * elapsed time, stops when the flag is up, and otherwise, once the elapsed time reaches
     * the period, resets it and runs every callback in the order they were added. The
     * callbacks are not guarded: an exception leaves the loop, which ends the thread, and
     * no later period runs.
     */
    method RefreshCycle(closeAt: nat, raisesAt: Option<nat>) returns (runs: seq<F>, raised: bool)
      ensures runs == Attempted(Repeat(functions, Refreshes(closeAt, timeoutGranule, refreshPeriod)), raisesAt)
      ensures raised <==> Raises(Repeat(functions, Refreshes(closeAt, timeoutGranule, refreshPeriod)), raisesAt)
    {
      var g, p := timeoutGranule, refreshPeriod;
      ghost var all := Repeat(functions, Refreshes(closeAt, g, p));
      var passed: nat := 0;
      var steps: nat := 0;
      runs := [];
      raised := false;
      while true
        invariant steps <= closeAt
        invariant passed == Passed(steps, g, p)
        invariant runs == Repeat(functions, Refreshes(steps, g, p))
        invariant raisesAt.Some? ==> raisesAt.value >= |runs|
        decreases closeAt - steps
      {
        passed := passed + g;
        if steps == closeAt {
          return;
        }
        Tick(steps, g, p);
        if passed >= p {
          passed := 0;
          NextRun(functions, steps, closeAt, g, p);
          runs, raised := RunAll(runs, raisesAt);
          if raised {
            AttemptedWithin(all, Repeat(functions, Refreshes(steps + 1, g, p)), raisesAt.value);
            return;
          }
        }
        steps := steps + 1;
      }
    }
  }
}
