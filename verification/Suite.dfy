/** The whole regression run of tests/regression/run_lxc_lifecycle_regressions.py: fast stage,
    pool and serial stage, and the exit status. */
module Suite {
  import Pool

  const POOL_MAX_WORKERS := 2

  /** One launch with its outcome. */
  datatype Launch = Launch(script: string, passed: bool)

  function Scripts(launches: seq<Launch>): seq<string> {
    seq(|launches|, i requires 0 <= i < |launches| => launches[i].script)
  }

  ghost predicate AllPassed(launches: seq<Launch>) {
    forall i | 0 <= i < |launches| :: launches[i].passed
  }

  /** The launches of the first `n` scripts, in order. */
  function Launches(scripts: seq<string>, fails: nat -> bool, n: nat): seq<Launch>
    requires n <= |scripts|
  {
    seq(n, i requires 0 <= i < n => Launch(scripts[i], !fails(i)))
  }

  ghost predicate NoneFails(fails: nat -> bool, n: nat) {
    forall k | 0 <= k < n :: !fails(k)
  }

  lemma LaunchesShape(scripts: seq<string>, fails: nat -> bool, n: nat)
    requires n <= |scripts|
    ensures Scripts(Launches(scripts, fails, n)) == scripts[..n] && |Launches(scripts, fails, n)| == n
    ensures AllPassed(Launches(scripts, fails, n)) <==> NoneFails(fails, n)
  {
    var launches := Launches(scripts, fails, n);
    if AllPassed(launches) {
      assert forall k | 0 <= k < n :: launches[k].passed == !fails(k);
    }
  }

  lemma ScriptsConcat(a: seq<Launch>, b: seq<Launch>)
    ensures Scripts(a + b) == Scripts(a) + Scripts(b)
    ensures AllPassed(a + b) <==> AllPassed(a) && AllPassed(b)
  {
    if AllPassed(a + b) {
      assert forall i | 0 <= i < |a| :: (a + b)[i] == a[i];
      assert forall i | 0 <= i < |b| :: (a + b)[|a| + i] == b[i];
    }
  }

  lemma OneLaunch(l: Launch)
    ensures AllPassed([l]) <==> l.passed
    ensures Scripts([l]) == [l.script]
  {
    assert [l][0] == l;
  }

  /** Of these scripts, run one at a time, the first `n` are launched: all of them, unless a
      failure under fail-fast cuts the run short, and at once. */
  ghost predicate Serially(scripts: seq<string>, failFast: bool, fails: nat -> bool, n: nat) {
    && n <= |scripts|
    && (n < |scripts| ==> failFast && n > 0 && fails(n - 1))
    && (failFast && n > 0 ==> NoneFails(fails, n - 1))
  }

  /** `run_serially`; the launcher at place `k` fails if `fails(k)`. */
  method RunSerially(scripts: seq<string>, failFast: bool, fails: nat -> bool)
    returns (failed: seq<string>, launched: nat)
    ensures launched <= |scripts| && failed == Pool.Chosen(scripts, fails, launched)
    ensures failed == [] <==> NoneFails(fails, launched)
    ensures Serially(scripts, failFast, fails, launched)
  {
    failed, launched := [], 0;
    for i := 0 to |scripts|
      invariant launched == i && failed == Pool.Chosen(scripts, fails, i)
      invariant failFast ==> NoneFails(fails, i)
    {
      launched := launched + 1;
      if fails(i) {
        failed := failed + [scripts[i]];
        if failFast {
          break;
        }
      }
    }
    Pool.ChosenNone(scripts, fails, launched);
  }

  /** Only scripts of the input are reported. */
  ghost predicate Within(trace: Pool.Trace, n: nat) {
    forall i | 0 <= i < |trace| && trace[i].Report? :: trace[i].k < n
  }

  lemma {:induction false} ReportedWithin(trace: Pool.Trace, n: nat)
    requires forall k | k in Pool.Reported(trace) :: k < n
    ensures Within(trace, n)
    decreases |trace|
  {
    if trace != [] {
      var front, last := trace[..|trace| - 1], trace[|trace| - 1];
      assert forall k | k in Pool.Reported(front) :: k in Pool.Reported(trace);
      ReportedWithin(front, n);
      assert trace == front + [last];
      if last.Report? {
        assert last.k in Pool.Reported(trace);
      }
    }
  }

  /** The launches a pool's trace stands for. */
  ghost function PoolLaunches(trace: Pool.Trace, scripts: seq<string>): seq<Launch>
    requires Within(trace, |scripts|)
  {
    if trace == [] then []
    else
      var last := trace[|trace| - 1];
      PoolLaunches(trace[..|trace| - 1], scripts)
      + (if last.Report? then [Launch(scripts[last.k], last.passed)] else [])
  }

  lemma {:induction false} PoolLaunchesShape(trace: Pool.Trace, scripts: seq<string>)
    requires Within(trace, |scripts|)
    ensures forall k | k in Pool.Reported(trace) :: k < |scripts|
    ensures Scripts(PoolLaunches(trace, scripts)) == Pool.Names(scripts, Pool.Reported(trace))
    ensures AllPassed(PoolLaunches(trace, scripts)) <==> Pool.Failures(trace) == []
    decreases |trace|
  {
    if trace != [] {
      var front, last := trace[..|trace| - 1], trace[|trace| - 1];
      PoolLaunchesShape(front, scripts);
      if last.Report? {
        var one := Launch(scripts[last.k], last.passed);
        ScriptsConcat(PoolLaunches(front, scripts), [one]);
        Pool.NamesSnoc(scripts, Pool.Reported(front), last.k);
        OneLaunch(one);
      } else {
        assert Pool.Reported(trace) == Pool.Reported(front) && Pool.Failures(trace) == Pool.Failures(front);
        assert PoolLaunches(trace, scripts) == PoolLaunches(front, scripts);
      }
    }
  }

  // ----- The run -----

  datatype Registry = Registry(fast: seq<string>, pooled: seq<string>, serial: seq<string>)

  /** Which launchers fail, by their place in the list they are launched from. */
  datatype Outcomes = Outcomes(only: nat -> bool, fast: nat -> bool, pooled: nat -> bool, serial: nat -> bool)

  /** No launcher of what was asked for fails. */
  ghost predicate SelectionPasses(registry: Registry, full: bool, only: seq<string>, outcomes: Outcomes) {
    if only != [] then
      NoneFails(outcomes.only, |only|)
    else
      && NoneFails(outcomes.fast, |registry.fast|)
      && (full ==> NoneFails(outcomes.pooled, |registry.pooled|) && NoneFails(outcomes.serial, |registry.serial|))
  }

  method RunPool(scripts: seq<string>, failFast: bool, fails: nat -> bool)
    returns (failed: seq<string>, launched: nat, ghost launches: seq<Launch>, ghost trace: Pool.Trace)
    ensures Within(trace, |scripts|) && launches == PoolLaunches(trace, scripts)
    ensures Pool.Complete(trace, |scripts|, POOL_MAX_WORKERS, failFast) && Pool.TrueTo(trace, fails)
    ensures failed == [] <==> Pool.Failures(trace) == []
    ensures failed == [] <==> NoneFails(fails, |scripts|)
    ensures failed == [] <==> AllPassed(launches)
    ensures launched == |launches| <= |scripts|
    ensures multiset(failed) == multiset(Pool.Chosen(scripts, fails, launched))
    ensures multiset(Scripts(launches)) == multiset(scripts[..launched])
    ensures !failFast || failed == [] ==> launched == |scripts|
  {
    failed, launched, trace := Pool.RunPooled(scripts, failFast, POOL_MAX_WORKERS, fails);
    Pool.CompleteReportsAll(trace, |scripts|, POOL_MAX_WORKERS, failFast);
    Pool.CompleteOutcome(trace, scripts, POOL_MAX_WORKERS, failFast, fails);
    ReportedWithin(trace, |scripts|);
    launches := PoolLaunches(trace, scripts);
    PoolLaunchesShape(trace, scripts);
    assert |Scripts(launches)| == |Pool.Reported(trace)|;
  }

  /** The pool runs the pooled scripts to the end, at most so many at a time; then those that must
      run alone are run one at a time, unless fail-fast met a failure in the pool. */
  ghost predicate PoolThenAlone(registry: Registry, failFast: bool, outcomes: Outcomes, trace: Pool.Trace, alone: nat) {
    && Pool.Complete(trace, |registry.pooled|, POOL_MAX_WORKERS, failFast) && Pool.TrueTo(trace, outcomes.pooled)
    && if failFast && Pool.Failures(trace) != [] then alone == 0
       else Serially(registry.serial, failFast, outcomes.serial, alone)
  }

  /** What is launched, stage by stage: all fast scripts in order; then, in a full run, the pool
      and those that run alone, unless fail-fast met a failure in the fast stage. */
  ghost predicate StageByStage(registry: Registry, full: bool, failFast: bool, outcomes: Outcomes,
      launches: seq<Launch>, trace: Pool.Trace, alone: nat)
  {
    && Within(trace, |registry.pooled|) && alone <= |registry.serial|
    && launches == Launches(registry.fast, outcomes.fast, |registry.fast|)
         + PoolLaunches(trace, registry.pooled) + Launches(registry.serial, outcomes.serial, alone)
    && if !full || (failFast && !NoneFails(outcomes.fast, |registry.fast|)) then trace == [] && alone == 0
       else PoolThenAlone(registry, failFast, outcomes, trace, alone)
  }

  /** The part only a full run has: the pool, then the launchers that must run alone. */
  method RunFullOnly(registry: Registry, failFast: bool, outcomes: Outcomes)
    returns (failed: seq<string>, ghost launches: seq<Launch>, ghost trace: Pool.Trace, ghost alone: nat)
    ensures Within(trace, |registry.pooled|) && alone <= |registry.serial|
    ensures launches
      == PoolLaunches(trace, registry.pooled) + Launches(registry.serial, outcomes.serial, alone)
    ensures PoolThenAlone(registry, failFast, outcomes, trace, alone)
    ensures failed == []
      <==> NoneFails(outcomes.pooled, |registry.pooled|) && NoneFails(outcomes.serial, |registry.serial|)
    ensures failed == [] <==> AllPassed(launches)
    ensures !failFast || failed == [] ==>
      multiset(Scripts(launches)) == multiset(registry.pooled) + multiset(registry.serial)
  {
    hide NoneFails, AllPassed, Scripts, PoolLaunches, Within, Pool.Complete, Pool.TrueTo, Pool.Failures, Pool.Chosen;
    var poolFailed, poolLaunched, poolRun, poolTrace := RunPool(registry.pooled, failFast, outcomes.pooled);
    failed, launches, trace, alone := poolFailed, poolRun, poolTrace, 0;
    assert poolRun == poolRun + Launches(registry.serial, outcomes.serial, 0);
    assert registry.pooled[..|registry.pooled|] == registry.pooled;
    if !(failed != [] && failFast) {
      var serialFailed, serialLaunched := RunSerially(registry.serial, failFast, outcomes.serial);
      ghost var serialRun := Launches(registry.serial, outcomes.serial, serialLaunched);
      LaunchesShape(registry.serial, outcomes.serial, serialLaunched);
      AllOrFailed(outcomes.serial, serialLaunched, |registry.serial|);
      ScriptsConcat(poolRun, serialRun);
      launches, alone := poolRun + serialRun, serialLaunched;
      failed := poolFailed + serialFailed;
      assert registry.serial[..|registry.serial|] == registry.serial;
    }
  }

  /** `run_regressions`: the exit status, and everything that was launched. */
  method RunRegressions(registry: Registry, full: bool, failFast: bool, only: seq<string>, outcomes: Outcomes)
    returns (status: int, ghost launches: seq<Launch>, ghost trace: Pool.Trace, ghost alone: nat)
    ensures if only == [] then StageByStage(registry, full, failFast, outcomes, launches, trace, alone)
      else Serially(only, failFast, outcomes.only, alone) && launches == Launches(only, outcomes.only, alone)
    // In every completion order, with and without fail-fast, the status says whether all of
    // what was asked for passes; and so it says whether all that was launched passed.
    ensures status == (if SelectionPasses(registry, full, only, outcomes) then 0 else 1)
    ensures status == 0 <==> AllPassed(launches)
    ensures only != [] ==> Scripts(launches) <= only && (status == 0 || !failFast ==> Scripts(launches) == only)
    ensures only == [] ==> registry.fast <= Scripts(launches)
    ensures only == [] && !full ==> Scripts(launches) == registry.fast
    // A passing full run launches all that is registered; without fail-fast every full run does.
    ensures only == [] && full && (status == 0 || !failFast) ==>
      multiset(Scripts(launches)) == multiset(registry.fast) + multiset(registry.pooled) + multiset(registry.serial)
    // A failure of the fast stage under fail-fast keeps the rest from starting.
    ensures only == [] && failFast && !NoneFails(outcomes.fast, |registry.fast|) ==> Scripts(launches) == registry.fast
  {
    hide NoneFails, AllPassed, Launches, PoolThenAlone;
    trace, alone := [], 0;
    if only != [] {
      var failed, launched := RunSerially(only, failFast, outcomes.only);
      LaunchesShape(only, outcomes.only, launched);
      AllOrFailed(outcomes.only, launched, |only|);
      assert only[..|only|] == only;
      return if failed != [] then 1 else 0, Launches(only, outcomes.only, launched), trace, launched;
    }
    // The fast launchers run together and are all reported, in order.
    var failed, fastLaunched := RunSerially(registry.fast, false, outcomes.fast);
    ghost var fastRun := Launches(registry.fast, outcomes.fast, fastLaunched);
    LaunchesShape(registry.fast, outcomes.fast, fastLaunched);
    assert registry.fast[..|registry.fast|] == registry.fast;
    if !full || (failed != [] && failFast) {
      NothingElse(registry, outcomes, fastRun);
      return if failed != [] then 1 else 0, fastRun, trace, alone;
    }
    var restFailed, rest, poolTrace, serialLaunched := RunFullOnly(registry, failFast, outcomes);
    ScriptsConcat(fastRun, rest);
    Associates(fastRun, PoolLaunches(poolTrace, registry.pooled),
      Launches(registry.serial, outcomes.serial, serialLaunched));
    failed := failed + restFailed;
    return if failed != [] then 1 else 0, fastRun + rest, poolTrace, serialLaunched;
  }

  lemma NothingElse(registry: Registry, outcomes: Outcomes, fastRun: seq<Launch>)
    ensures Within([], |registry.pooled|)
    ensures fastRun == fastRun + PoolLaunches([], registry.pooled) + Launches(registry.serial, outcomes.serial, 0)
  {
  }

  lemma Associates<T>(a: seq<T>, b: seq<T>, c: seq<T>)
    ensures a + (b + c) == a + b + c
  {
  }

  /** A run cut short has met a failure. */
  lemma AllOrFailed(fails: nat -> bool, launched: nat, n: nat)
    requires launched <= n && (launched < n ==> launched > 0 && fails(launched - 1))
    ensures NoneFails(fails, launched) <==> NoneFails(fails, n)
    ensures launched < n ==> !NoneFails(fails, launched)
  {
  }
}
