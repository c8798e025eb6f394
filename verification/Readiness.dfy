/** `wait_for_guest_command` of library/proxmox_pct.py: polling until a container accepts a
    guest command, within a deadline. Times are in nanoseconds. */
module Readiness {

  const TIMEOUT_RC := 124
  const MIN_USEFUL_ATTEMPT := 1_000_000_000
  const KILL_GRACE := 5_000_000_000

  /** Seconds as nanoseconds. */
  function Seconds(s: int): int {
    s * 1_000_000_000
  }

  datatype Answer = Answer(rc: int, stdout: string, stderr: string)

  /** One attempt of a run. */
  datatype Attempt = Attempt(answer: Answer, started: int, ended: int, budget: int)

  /** The host: its monotonic clock, and how far a sleep may overshoot. */
  class Host {
    var now: int
    /** The attempts so far. */
    var log: seq<Attempt>
    const overshoot: nat

    constructor (overshoot: nat)
      ensures this.overshoot == overshoot && log == []
    {
      this.overshoot := overshoot;
      this.now := 0;
      this.log := [];
    }

    /** One attempt takes some time, but no more than its kill budget and the grace for
        collecting the output of a killed process. */
    method RunPct(killAfter: int) returns (answer: Answer)
      requires killAfter > 0
      modifies this
      ensures old(now) < now <= old(now) + killAfter + KILL_GRACE
      ensures log == old(log) + [Attempt(answer, old(now), now, killAfter)]
    {
      var rc: int := *;
      var out: string, err: string := *, *;
      var took: int := *;
      answer := Answer(rc, out, err);
      var started := now;
      now := now + if 0 < took <= killAfter + KILL_GRACE then took else 1;
      log := log + [Attempt(answer, started, now, killAfter)];
    }

    method Sleep(duration: nat)
      modifies this`now
      ensures old(now) + duration <= now <= old(now) + duration + overshoot
    {
      var extra: int := *;
      now := now + duration + if 0 <= extra <= overshoot then extra else 0;
    }
  }

  datatype Outcome = Ready(answer: Answer) | NotReady(diagnosis: Answer, attempts: nat)

  predicate Genuine(a: Attempt) {
    a.answer.rc != TIMEOUT_RC
  }

  ghost predicate AnyGenuine(attempts: seq<Attempt>) {
    exists i | 0 <= i < |attempts| :: Genuine(attempts[i])
  }

  /** The last answer that was not a kill, or the last of all if every attempt was killed. */
  ghost predicate IsDiagnosis(diagnosis: Answer, attempts: seq<Attempt>) {
    if AnyGenuine(attempts) then
      exists i | 0 <= i < |attempts| :: Genuine(attempts[i]) && diagnosis == attempts[i].answer
        && forall j | i < j < |attempts| :: !Genuine(attempts[j])
    else
      attempts != [] && diagnosis == attempts[|attempts| - 1].answer
  }

  ghost predicate AllFailed(attempts: seq<Attempt>) {
    forall i | 0 <= i < |attempts| :: attempts[i].answer.rc != 0
  }

  predicate FollowsUp(previous: Attempt, started: int, deadline: int, delay: nat, overshoot: nat) {
    && previous.ended + Seconds(delay) <= started <= previous.ended + Seconds(delay) + overshoot
    && previous.ended + Seconds(delay) + MIN_USEFUL_ATTEMPT < deadline
  }

  predicate HasBudget(a: Attempt, deadline: int, commandTimeout: int) {
    a.budget == Min(Seconds(commandTimeout), Max(deadline - a.started, MIN_USEFUL_ATTEMPT))
  }

  /** The first attempt starts at once; every later one after the delay, up to the overshoot, and
      only if the one before it left time for the delay and a usable budget; each gets what is
      left of the time, within the bounds for one command. */
  ghost predicate WellTimed(attempts: seq<Attempt>, started: int, deadline: int, delay: nat, commandTimeout: int,
      overshoot: nat)
  {
    && (attempts != [] ==> attempts[0].started == started)
    && (forall i, j | 0 <= i < j < |attempts| && j == i + 1 ::
          FollowsUp(attempts[i], attempts[j].started, deadline, delay, overshoot))
    && (forall i | 0 <= i < |attempts| :: HasBudget(attempts[i], deadline, commandTimeout))
  }

  function Min(a: int, b: int): int {
    if a <= b then a else b
  }

  function Max(a: int, b: int): int {
    if a >= b then a else b
  }

  /** The smallest whole number of delays that cover a time. */
  function CeilDiv(a: int, d: int): int
    requires d > 0
  {
    (a + d - 1) / d
  }

  function Times(n: nat, d: nat): nat {
    n * d
  }

  lemma OnceMore(n: nat, d: nat)
    ensures Times(n + 1, d) == Times(n, d) + d && Times(0, d) == 0
  {
  }

  lemma CeilBound(n: nat, d: nat, a: int)
    requires d > 0 && Times(n, d) < a
    ensures n + 1 <= CeilDiv(a, d)
  {
    var q, r := (a + d - 1) / d, (a + d - 1) % d;
    assert a + d - 1 == q * d + r;
    if q <= n {
      Monotone(q, n, d);
    }
  }

  lemma Monotone(q: int, n: int, d: int)
    requires d > 0 && q <= n
    ensures q * d <= n * d
  {
  }

  lemma NothingTried(started: int, deadline: int, delay: nat, commandTimeout: int, overshoot: nat)
    ensures AllFailed([]) && !AnyGenuine([]) && WellTimed([], started, deadline, delay, commandTimeout, overshoot)
  {
  }

  lemma OneMoreAttempt(before: seq<Attempt>, next: Attempt, started: int, deadline: int, delay: nat,
      commandTimeout: int, overshoot: nat)
    requires WellTimed(before, started, deadline, delay, commandTimeout, overshoot) && AllFailed(before)
    requires if before == [] then next.started == started
      else FollowsUp(before[|before| - 1], next.started, deadline, delay, overshoot)
    requires HasBudget(next, deadline, commandTimeout)
    ensures WellTimed(before + [next], started, deadline, delay, commandTimeout, overshoot)
    ensures next.answer.rc != 0 ==> AllFailed(before + [next])
    ensures (before + [next])[..|before|] == before && (before + [next])[|before|] == next
  {
    hide FollowsUp, HasBudget, Genuine;
  }

  lemma DiagnosisAfter(before: seq<Attempt>, next: Attempt, diagnosis: Answer)
    requires if Genuine(next) then diagnosis == next.answer else AnyGenuine(before) ==> IsDiagnosis(diagnosis, before)
    ensures AnyGenuine(before + [next]) <==> AnyGenuine(before) || Genuine(next)
    ensures AnyGenuine(before + [next]) ==> IsDiagnosis(diagnosis, before + [next])
  {
    var all := before + [next];
    if Genuine(next) {
      assert Genuine(all[|before|]);
    } else if AnyGenuine(before) {
      var i :| 0 <= i < |before| && Genuine(before[i]) && diagnosis == before[i].answer
        && forall j | i < j < |before| :: !Genuine(before[j]);
      assert Genuine(all[i]);
    }
  }

  lemma AllKilled(attempts: seq<Attempt>)
    requires attempts != [] && !AnyGenuine(attempts)
    ensures IsDiagnosis(attempts[|attempts| - 1].answer, attempts)
  {
  }

  /** Timeouts and delay in whole seconds, as the module takes them. */
  method WaitForGuest(host: Host, timeout: int, delay: nat, commandTimeout: int)
    returns (r: Outcome, ghost attempts: seq<Attempt>)
    requires timeout > 0 && commandTimeout > 0
    modifies host
    ensures host.log == old(host.log) + attempts
    // The wait ends at most five seconds and one overshoot after its deadline.
    ensures host.now <= old(host.now) + Seconds(timeout) + KILL_GRACE + host.overshoot
    // At least one attempt; none after a success; and, with a delay, no more than fit in.
    ensures attempts != [] && AllFailed(attempts[..|attempts| - 1])
    ensures delay > 0 ==> |attempts| <= Max(1, CeilDiv(timeout - 1, delay))
    ensures WellTimed(attempts, old(host.now), old(host.now) + Seconds(timeout), delay, commandTimeout, host.overshoot)
    // It gives up only when there is no time for the delay and a usable attempt.
    ensures attempts[|attempts| - 1].ended == host.now
    ensures r.NotReady? ==> host.now + Seconds(delay) + MIN_USEFUL_ATTEMPT >= old(host.now) + Seconds(timeout)
    ensures r.Ready? <==> attempts[|attempts| - 1].answer.rc == 0
    ensures r.Ready? ==> r.answer == attempts[|attempts| - 1].answer
    ensures r.NotReady? ==> IsDiagnosis(r.diagnosis, attempts) && r.attempts == |attempts|
  {
    hide AllFailed, AnyGenuine, WellTimed, IsDiagnosis, Times, CeilDiv;
    var started := host.now;
    var deadline := started + Seconds(timeout);
    var count: nat := 0;
    var hasGenuine, lastGenuine, last := false, Answer(0, "", ""), Answer(0, "", "");
    attempts := [];
    NothingTried(started, deadline, delay, commandTimeout, host.overshoot);
    OnceMore(0, delay);
    ghost var checked: int, slept: nat := started, 0;
    while true
      invariant host.log == old(host.log) + attempts
      invariant count == |attempts| && slept == Times(count, delay)
      invariant attempts == [] ==> host.now == started == checked && slept == 0
      invariant attempts != [] ==>
        && checked == attempts[|attempts| - 1].ended && checked + Seconds(delay) + MIN_USEFUL_ATTEMPT < deadline
        && checked + Seconds(delay) <= host.now <= checked + Seconds(delay) + host.overshoot
        && checked + Seconds(delay) >= started + Seconds(slept)
      invariant AllFailed(attempts) && WellTimed(attempts, started, deadline, delay, commandTimeout, host.overshoot)
      invariant hasGenuine <==> AnyGenuine(attempts)
      invariant hasGenuine ==> IsDiagnosis(lastGenuine, attempts)
      decreases deadline - checked, if attempts == [] then 1 else 0
    {
      count := count + 1;
      var remaining := deadline - host.now;
      var killAfter := Min(Seconds(commandTimeout), Max(remaining, MIN_USEFUL_ATTEMPT));
      ghost var before, startedAt := attempts, host.now;
      last := host.RunPct(killAfter);
      ghost var next := Attempt(last, startedAt, host.now, killAfter);
      attempts := before + [next];
      OneMoreAttempt(before, next, started, deadline, delay, commandTimeout, host.overshoot);
      OnceMore(count - 1, delay);
      if before != [] && delay > 0 {
        CeilBound(|before|, delay, timeout - 1);
      }
      if last.rc == 0 {
        return Ready(last), attempts;
      }
      if last.rc != TIMEOUT_RC {
        hasGenuine, lastGenuine := true, last;
      }
      DiagnosisAfter(before, next, lastGenuine);
      if host.now + Seconds(delay) + MIN_USEFUL_ATTEMPT >= deadline {
        break;
      }
      checked := host.now;
      host.Sleep(Seconds(delay));
      slept := slept + delay;
    }
    if !hasGenuine {
      AllKilled(attempts);
    }
    return NotReady(if hasGenuine then lastGenuine else last, count), attempts;
  }
}
