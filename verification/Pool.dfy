/** The bounded pool of tests/regression/run_lxc_lifecycle_regressions.py: at most so many
    launchers at a time, reported in whatever order they finish. */
module Pool {

  /** What happens during a run; a script is known by its place in the input. */
  datatype Event =
    | Submit(k: nat)
    | Await
    | Report(k: nat, passed: bool)

  type Trace = seq<Event>

  function InFlight(trace: Trace): set<nat> {
    if trace == [] then {}
    else
      var before := InFlight(trace[..|trace| - 1]);
      match trace[|trace| - 1]
      case Submit(k) => before + {k}
      case Await => before
      case Report(k, _) => before - {k}
  }

  function Submitted(trace: Trace): nat {
    if trace == [] then 0
    else Submitted(trace[..|trace| - 1]) + (if trace[|trace| - 1].Submit? then 1 else 0)
  }

  /** The scripts reported, in order. */
  function Reported(trace: Trace): seq<nat> {
    if trace == [] then []
    else Reported(trace[..|trace| - 1]) + (if trace[|trace| - 1].Report? then [trace[|trace| - 1].k] else [])
  }

  /** The scripts reported as failed, in order. */
  function Failures(trace: Trace): seq<nat> {
    if trace == [] then []
    else
      var last := trace[|trace| - 1];
      Failures(trace[..|trace| - 1]) + (if last.Report? && !last.passed then [last.k] else [])
  }

  /** A failure under fail-fast ends all scheduling. */
  predicate Stopped(trace: Trace, failFast: bool) {
    failFast && Failures(trace) != []
  }

  /** What may happen next, after `trace`. */
  predicate Allowed(trace: Trace, e: Event, total: nat, workers: nat, failFast: bool) {
    match e
    // Submissions follow the input, never exceed the bound, and stop at a failure.
    case Submit(k) => k == Submitted(trace) < total && |InFlight(trace)| < workers && !Stopped(trace, failFast)
    // The runner waits only with the pool full, the input exhausted or scheduling stopped.
    case Await => InFlight(trace) != {}
      && (|InFlight(trace)| == workers || Submitted(trace) == total || Stopped(trace, failFast))
    // Only a launcher in flight is reported.
    case Report(k, _) => k in InFlight(trace)
  }

  /** Every event was allowed when it happened. */
  predicate Legal(trace: Trace, total: nat, workers: nat, failFast: bool) {
    trace == [] || (Legal(trace[..|trace| - 1], total, workers, failFast)
      && Allowed(trace[..|trace| - 1], trace[|trace| - 1], total, workers, failFast))
  }

  lemma TraceSnoc(trace: Trace, e: Event)
    ensures (trace + [e])[..|trace|] == trace && (trace + [e])[|trace|] == e
  {
  }

  /** One more event, in each of the views. */
  lemma ViewsSnoc(trace: Trace, e: Event, total: nat, workers: nat, failFast: bool)
    ensures Legal(trace + [e], total, workers, failFast)
      <==> Legal(trace, total, workers, failFast) && Allowed(trace, e, total, workers, failFast)
    ensures InFlight(trace + [e])
      == if e.Submit? then InFlight(trace) + {e.k} else if e.Report? then InFlight(trace) - {e.k} else InFlight(trace)
    ensures Submitted(trace + [e]) == Submitted(trace) + (if e.Submit? then 1 else 0)
    ensures Reported(trace + [e]) == if e.Report? then Reported(trace) + [e.k] else Reported(trace)
    ensures Failures(trace + [e]) == if e.Report? && !e.passed then Failures(trace) + [e.k] else Failures(trace)
  {
    hide Allowed;
    TraceSnoc(trace, e);
    assert Failures(trace) + [] == Failures(trace) && Reported(trace) + [] == Reported(trace);
  }

  // ----- What every legal trace keeps -----

  function Count(s: seq<nat>, x: nat): nat {
    if s == [] then 0 else Count(s[..|s| - 1], x) + (if s[|s| - 1] == x then 1 else 0)
  }

  lemma CountSnoc(s: seq<nat>, y: nat, x: nat)
    ensures Count(s + [y], x) == Count(s, x) + (if y == x then 1 else 0)
  {
    assert (s + [y])[..|s|] == s;
  }

  /** How the views of a trace hang together. */
  ghost predicate Accounted(trace: Trace, total: nat, workers: nat) {
    && |InFlight(trace)| <= workers && Submitted(trace) <= total
    && (forall k | k in InFlight(trace) :: k < Submitted(trace))
    && (forall k: nat :: Count(Reported(trace), k) == if k < Submitted(trace) && k !in InFlight(trace) then 1 else 0)
    && |Reported(trace)| + |InFlight(trace)| == Submitted(trace)
  }

  lemma NothingAccounted(total: nat, workers: nat)
    ensures Accounted([], total, workers)
  {
  }

  lemma SubmitAccounted(trace: Trace, k: nat, total: nat, workers: nat, failFast: bool)
    requires Accounted(trace, total, workers) && Allowed(trace, Submit(k), total, workers, failFast)
    ensures Accounted(trace + [Submit(k)], total, workers)
  {
    hide InFlight, Submitted, Reported, Failures, Count, Legal;
    ViewsSnoc(trace, Submit(k), total, workers, failFast);
    assert k !in InFlight(trace) && |InFlight(trace) + {k}| == |InFlight(trace)| + 1;
  }

  lemma ReportAccounted(trace: Trace, k: nat, passed: bool, total: nat, workers: nat, failFast: bool)
    requires Accounted(trace, total, workers) && Allowed(trace, Report(k, passed), total, workers, failFast)
    ensures Accounted(trace + [Report(k, passed)], total, workers)
  {
    hide InFlight, Submitted, Reported, Failures, Count, Legal;
    ViewsSnoc(trace, Report(k, passed), total, workers, failFast);
    assert |InFlight(trace) - {k}| == |InFlight(trace)| - 1;
    forall j: nat
      ensures Count(Reported(trace) + [k], j) == Count(Reported(trace), j) + (if k == j then 1 else 0)
    {
      CountSnoc(Reported(trace), k, j);
    }
  }

  lemma AwaitAccounted(trace: Trace, total: nat, workers: nat, failFast: bool)
    requires Accounted(trace, total, workers)
    ensures Accounted(trace + [Await], total, workers)
  {
    hide InFlight, Submitted, Reported, Failures, Count, Legal;
    ViewsSnoc(trace, Await, total, workers, failFast);
  }

  lemma {:induction false} LegalIsAccounted(trace: Trace, total: nat, workers: nat, failFast: bool)
    requires Legal(trace, total, workers, failFast)
    ensures Accounted(trace, total, workers)
    decreases |trace|
  {
    hide InFlight, Submitted, Reported, Failures, Count, Accounted, Allowed;
    if trace == [] {
      NothingAccounted(total, workers);
    } else {
      var front, e := trace[..|trace| - 1], trace[|trace| - 1];
      assert trace == front + [e];
      LegalIsAccounted(front, total, workers, failFast);
      match e
      case Submit(k) => SubmitAccounted(front, k, total, workers, failFast);
      case Await => AwaitAccounted(front, total, workers, failFast);
      case Report(k, passed) => ReportAccounted(front, k, passed, total, workers, failFast);
    }
  }

  /** Never more than the bound in flight; what is submitted is a prefix of the input; each
      script of that prefix is in flight or reported, exactly once, and no other is. */
  lemma LegalAccounting(trace: Trace, total: nat, workers: nat, failFast: bool)
    requires Legal(trace, total, workers, failFast)
    ensures |InFlight(trace)| <= workers && Submitted(trace) <= total
    ensures forall k | k in InFlight(trace) :: k < Submitted(trace)
    ensures forall k: nat :: Count(Reported(trace), k) == if k < Submitted(trace) && k !in InFlight(trace) then 1 else 0
    ensures |Reported(trace)| + |InFlight(trace)| == Submitted(trace)
  {
    hide InFlight, Submitted, Reported, Count, Legal;
    LegalIsAccounted(trace, total, workers, failFast);
  }

  /** After the first failure under fail-fast nothing is submitted any more. */
  lemma {:induction false} NothingAfterFailure(trace: Trace, total: nat, workers: nat, failFast: bool, i: nat, j: nat)
    requires Legal(trace, total, workers, failFast) && failFast
    requires i < j < |trace| && trace[i].Report? && !trace[i].passed
    ensures !trace[j].Submit?
    decreases |trace|
  {
    var front := trace[..|trace| - 1];
    if j < |trace| - 1 {
      NothingAfterFailure(front, total, workers, failFast, i, j);
    } else {
      FailureIsRemembered(front, i);
    }
  }

  lemma {:induction false} FailureIsRemembered(trace: Trace, i: nat)
    requires i < |trace| && trace[i].Report? && !trace[i].passed
    ensures Failures(trace) != []
    decreases |trace|
  {
    if i < |trace| - 1 {
      FailureIsRemembered(trace[..|trace| - 1], i);
    }
  }

  /** At the end of a run every submitted script has been reported exactly once, and all of the
      input has been submitted unless a failure stopped the scheduling. */
  ghost predicate Complete(trace: Trace, total: nat, workers: nat, failFast: bool) {
    && Legal(trace, total, workers, failFast) && InFlight(trace) == {}
    && (Submitted(trace) == total || Stopped(trace, failFast))
  }

  lemma CompleteReportsAll(trace: Trace, total: nat, workers: nat, failFast: bool)
    requires Complete(trace, total, workers, failFast)
    ensures |Reported(trace)| == Submitted(trace)
    ensures forall k: nat :: Count(Reported(trace), k) == if k < Submitted(trace) then 1 else 0
    ensures !failFast || Failures(trace) == [] ==> Submitted(trace) == total
  {
    LegalAccounting(trace, total, workers, failFast);
  }

  // ----- Outcomes -----

  /** The trace tells the truth about who fails. */
  ghost predicate TrueTo(trace: Trace, fails: nat -> bool) {
    forall i | 0 <= i < |trace| && trace[i].Report? :: trace[i].passed == !fails(trace[i].k)
  }

  lemma {:induction false} FailuresCount(trace: Trace, fails: nat -> bool, k: nat)
    requires TrueTo(trace, fails)
    ensures Count(Failures(trace), k) == if fails(k) then Count(Reported(trace), k) else 0
    decreases |trace|
  {
    if trace != [] {
      var front, last := trace[..|trace| - 1], trace[|trace| - 1];
      FailuresCount(front, fails, k);
      assert Reported(front) + [] == Reported(front) && Failures(front) + [] == Failures(front);
      if last.Report? {
        CountSnoc(Reported(front), last.k, k);
        CountSnoc(Failures(front), last.k, k);
      }
    }
  }

  /** The scripts at the chosen ones of the first `n` places, in order. */
  function Chosen(scripts: seq<string>, chosen: nat -> bool, n: nat): seq<string>
    requires n <= |scripts|
  {
    if n == 0 then [] else Chosen(scripts, chosen, n - 1) + (if chosen(n - 1) then [scripts[n - 1]] else [])
  }

  lemma ChosenStep(scripts: seq<string>, chosen: nat -> bool, n: nat)
    requires n <= |scripts|
    ensures n == 0 ==> Chosen(scripts, chosen, n) == []
    ensures n > 0 && !chosen(n - 1) ==> Chosen(scripts, chosen, n) == Chosen(scripts, chosen, n - 1)
    ensures n > 0 && chosen(n - 1) ==>
      multiset(Chosen(scripts, chosen, n)) == multiset(Chosen(scripts, chosen, n - 1)) + multiset{scripts[n - 1]}
  {
  }

  lemma {:induction false} ChosenNone(scripts: seq<string>, chosen: nat -> bool, n: nat)
    requires n <= |scripts|
    ensures Chosen(scripts, chosen, n) == [] <==> forall k | 0 <= k < n :: !chosen(k)
    decreases n
  {
    if n > 0 {
      ChosenNone(scripts, chosen, n - 1);
    }
  }

  lemma {:induction false} ChosenAll(scripts: seq<string>, chosen: nat -> bool, n: nat)
    requires n <= |scripts| && forall k | 0 <= k < n :: chosen(k)
    ensures Chosen(scripts, chosen, n) == scripts[..n]
    decreases n
  {
    if n > 0 {
      ChosenAll(scripts, chosen, n - 1);
    }
  }

  // ----- The runner -----

  function Names(scripts: seq<string>, ks: seq<nat>): seq<string>
    requires forall k | k in ks :: k < |scripts|
  {
    seq(|ks|, i requires 0 <= i < |ks| => assert ks[i] in ks; scripts[ks[i]])
  }

  lemma NamesSnoc(scripts: seq<string>, ks: seq<nat>, k: nat)
    requires k < |scripts| && forall j | j in ks :: j < |scripts|
    ensures Names(scripts, ks + [k]) == Names(scripts, ks) + [scripts[k]]
  {
  }

  lemma {:induction false} CountedIsMember(s: seq<nat>, x: nat)
    ensures Count(s, x) > 0 <==> x in s
    decreases |s|
  {
    if s != [] {
      assert s == s[..|s| - 1] + [s[|s| - 1]];
      CountedIsMember(s[..|s| - 1], x);
    }
  }

  lemma {:induction false} RemoveCounted(s: seq<nat>, n: nat) returns (i: nat)
    requires n in s
    ensures i < |s| && s[i] == n
    ensures forall k: nat :: Count(s[..i] + s[i + 1..], k) == Count(s, k) - (if k == n then 1 else 0)
    decreases |s|
  {
    var front, last := s[..|s| - 1], s[|s| - 1];
    assert s == front + [last];
    if last == n {
      i := |s| - 1;
      assert s[..i] + s[i + 1..] == front;
    } else {
      i := RemoveCounted(front, n);
      var rest := front[..i] + front[i + 1..];
      assert s[..i] + s[i + 1..] == rest + [last];
      forall k: nat
        ensures Count(rest + [last], k) == Count(s, k) - (if k == n then 1 else 0)
      {
        CountSnoc(rest, last, k);
        CountSnoc(front, last, k);
      }
    }
  }

  lemma NoNames(scripts: seq<string>)
    ensures Names(scripts, []) == []
  {
  }

  lemma NamesRemoved(scripts: seq<string>, ks: seq<nat>, i: nat)
    requires i < |ks| && ks[i] < |scripts| && forall k | k in ks :: k < |scripts|
    ensures var rest := ks[..i] + ks[i + 1..];
      (forall k | k in rest :: k < |scripts|)
      && multiset(Names(scripts, ks)) == multiset(Names(scripts, rest)) + multiset{scripts[ks[i]]}
  {
    var rest := ks[..i] + ks[i + 1..];
    assert forall k | k in rest :: k in ks;
    var names := Names(scripts, ks);
    assert Names(scripts, rest) == names[..i] + names[i + 1..];
    assert names == names[..i] + [scripts[ks[i]]] + names[i + 1..];
  }

  /** Taking out the one occurrence of a place. */
  lemma TakePlace(ks: seq<nat>, chosen: nat -> bool, n: nat, bound: nat) returns (i: nat)
    requires n > 0 && chosen(n - 1) && forall k | k in ks :: k < bound
    requires forall k: nat :: Count(ks, k) == if k < n && chosen(k) then 1 else 0
    ensures i < |ks| && ks[i] == n - 1
    ensures var rest := ks[..i] + ks[i + 1..];
      && (forall k | k in rest :: k < bound)
      && (forall k: nat :: Count(rest, k) == if k < n - 1 && chosen(k) then 1 else 0)
  {
    hide Count;
    CountedIsMember(ks, n - 1);
    i := RemoveCounted(ks, n - 1);
    var rest := ks[..i] + ks[i + 1..];
    forall k | k in rest
      ensures k < bound
    {
      assert k in ks;
    }
  }

  /** Naming each chosen place once, in any order, names each script as often as it is listed
      at chosen places. */
  lemma {:induction false} EachOnceIsPermutation(scripts: seq<string>, ks: seq<nat>, chosen: nat -> bool, n: nat)
    requires n <= |scripts| && forall k | k in ks :: k < |scripts|
    requires forall k: nat :: Count(ks, k) == if k < n && chosen(k) then 1 else 0
    ensures multiset(Names(scripts, ks)) == multiset(Chosen(scripts, chosen, n))
    decreases n
  {
    hide Names, Count, Chosen;
    ChosenStep(scripts, chosen, n);
    if n == 0 {
      if ks != [] {
        CountedIsMember(ks, ks[0]);
      }
      NoNames(scripts);
    } else if !chosen(n - 1) {
      EachOnceIsPermutation(scripts, ks, chosen, n - 1);
    } else {
      var i := TakePlace(ks, chosen, n, |scripts|);
      EachOnceIsPermutation(scripts, ks[..i] + ks[i + 1..], chosen, n - 1);
      NamesRemoved(scripts, ks, i);
    }
  }

  /** Some non-empty part of the launchers in flight has finished; which, and in which order
      they come up, is anybody's guess. */
  method WaitForSome(inFlight: map<nat, string>, ghost trace0: Trace) returns (done: seq<nat>, ghost trace: Trace)
    requires inFlight != map[]
    ensures trace == trace0 + [Await]
    ensures done != [] && (forall k | k in done :: k in inFlight)
    ensures forall i, j | 0 <= i < j < |done| :: done[i] != done[j]
  {
    var first :| first in inFlight;
    done, trace := [first], trace0 + [Await];
    var left := inFlight.Keys - {first};
    while left != {}
      invariant left <= inFlight.Keys && forall k | k in done :: k in inFlight && k !in left
      invariant done != [] && forall i, j | 0 <= i < j < |done| :: done[i] != done[j]
      decreases left
    {
      var k :| k in left;
      var finished: bool := *;
      left := left - {k};
      if finished {
        done := done + [k];
      }
    }
  }

  /** What the loop holds about its variables. */
  ghost predicate Holds(trace: Trace, scripts: seq<string>, workers: nat, failFast: bool,
      next: nat, inFlight: map<nat, string>, failed: seq<string>, launched: nat)
  {
    && Legal(trace, |scripts|, workers, failFast)
    && next == Submitted(trace) <= |scripts|
    && inFlight.Keys == InFlight(trace)
    && (forall k | k in inFlight :: k < next && inFlight[k] == scripts[k])
    && (forall k | k in Failures(trace) :: k < |scripts|)
    && failed == Names(scripts, Failures(trace))
    && launched == |Reported(trace)|
    && launched + |inFlight| == next
  }

  lemma SubmitHolds(trace: Trace, scripts: seq<string>, workers: nat, failFast: bool,
      next: nat, inFlight: map<nat, string>, failed: seq<string>, launched: nat)
    requires Holds(trace, scripts, workers, failFast, next, inFlight, failed, launched)
    requires |inFlight| < workers && next < |scripts| && !Stopped(trace, failFast)
    ensures Holds(trace + [Submit(next)], scripts, workers, failFast, next + 1, inFlight[next := scripts[next]],
      failed, launched)
    ensures Failures(trace + [Submit(next)]) == Failures(trace)
  {
    hide Legal, InFlight, Submitted, Reported, Failures, Names;
    ViewsSnoc(trace, Submit(next), |scripts|, workers, failFast);
    LegalAccounting(trace, |scripts|, workers, failFast);
    assert |InFlight(trace)| == |inFlight.Keys| == |inFlight|;
    assert inFlight[next := scripts[next]].Keys == inFlight.Keys + {next};
  }

  lemma ReportHolds(trace: Trace, scripts: seq<string>, workers: nat, failFast: bool,
      next: nat, inFlight: map<nat, string>, failed: seq<string>, launched: nat, k: nat, passed: bool)
    requires Holds(trace, scripts, workers, failFast, next, inFlight, failed, launched) && k in inFlight
    ensures Holds(trace + [Report(k, passed)], scripts, workers, failFast, next, inFlight - {k},
      if passed then failed else failed + [inFlight[k]], launched + 1)
  {
    hide Legal, InFlight, Submitted, Reported, Failures, Names;
    ViewsSnoc(trace, Report(k, passed), |scripts|, workers, failFast);
    NamesSnoc(scripts, Failures(trace), k);
    assert (inFlight - {k}).Keys == inFlight.Keys - {k};
    assert |inFlight.Keys - {k}| == |inFlight| - 1;
  }

  lemma NextWithin(trace: Trace, scripts: seq<string>, workers: nat, failFast: bool,
      next: nat, inFlight: map<nat, string>, failed: seq<string>, launched: nat)
    requires Holds(trace, scripts, workers, failFast, next, inFlight, failed, launched)
    ensures next <= |scripts|
  {
  }

  method Schedule(scripts: seq<string>, workers: nat, failFast: bool, next0: nat, inFlight0: map<nat, string>,
      ghost fails: nat -> bool, ghost failed: seq<string>, ghost launched: nat, ghost trace0: Trace)
    returns (next: nat, inFlight: map<nat, string>, ghost trace: Trace)
    requires Holds(trace0, scripts, workers, failFast, next0, inFlight0, failed, launched)
    requires !Stopped(trace0, failFast) && TrueTo(trace0, fails)
    ensures Holds(trace, scripts, workers, failFast, next, inFlight, failed, launched) && TrueTo(trace, fails)
    ensures Failures(trace) == Failures(trace0)
    ensures |inFlight| >= workers || next == |scripts|
  {
    hide Holds, Failures, TrueTo;
    next, inFlight, trace := next0, inFlight0, trace0;
    NextWithin(trace, scripts, workers, failFast, next, inFlight, failed, launched);
    while |inFlight| < workers
      invariant Holds(trace, scripts, workers, failFast, next, inFlight, failed, launched) && TrueTo(trace, fails)
      invariant Failures(trace) == Failures(trace0) && next <= |scripts|
      decreases |scripts| - next
    {
      if next == |scripts| {
        return;
      }
      SubmitHolds(trace, scripts, workers, failFast, next, inFlight, failed, launched);
      TrueSnoc(trace, Submit(next), fails);
      trace := trace + [Submit(next)];
      inFlight := inFlight[next := scripts[next]];
      next := next + 1;
    }
  }

  lemma TrueSnoc(trace: Trace, e: Event, fails: nat -> bool)
    requires TrueTo(trace, fails) && (e.Report? ==> e.passed == !fails(e.k))
    ensures TrueTo(trace + [e], fails)
  {
  }

  /** Report the finished launchers of one wait. */
  method ReportBatch(scripts: seq<string>, workers: nat, failFast: bool, next: nat, inFlight0: map<nat, string>,
      done: seq<nat>, fails: nat -> bool, failed0: seq<string>, launched0: nat, ghost trace0: Trace)
    returns (inFlight: map<nat, string>, failed: seq<string>, launched: nat, ghost trace: Trace)
    requires Holds(trace0, scripts, workers, failFast, next, inFlight0, failed0, launched0)
    requires (forall k | k in done :: k in inFlight0) && forall i, j | 0 <= i < j < |done| :: done[i] != done[j]
    requires TrueTo(trace0, fails)
    ensures Holds(trace, scripts, workers, failFast, next, inFlight, failed, launched) && TrueTo(trace, fails)
    ensures launched == launched0 + |done| && |failed| >= |failed0|
  {
    hide Holds, TrueTo;
    inFlight, failed, launched, trace := inFlight0, failed0, launched0, trace0;
    for i := 0 to |done|
      invariant Holds(trace, scripts, workers, failFast, next, inFlight, failed, launched) && TrueTo(trace, fails)
      invariant launched == launched0 + i && |failed| >= |failed0|
      invariant forall j | i <= j < |done| :: done[j] in inFlight
    {
      var k := done[i];
      var passed := !fails(k);
      ReportHolds(trace, scripts, workers, failFast, next, inFlight, failed, launched, k, passed);
      TrueSnoc(trace, Report(k, passed), fails);
      trace := trace + [Report(k, passed)];
      var script := inFlight[k];
      inFlight := inFlight - {k};
      launched := launched + 1;
      if !passed {
        failed := failed + [script];
      }
    }
  }

  /** Waiting with a full pool, an exhausted input or no more scheduling. */
  lemma AwaitHolds(trace: Trace, scripts: seq<string>, workers: nat, failFast: bool,
      next: nat, inFlight: map<nat, string>, failed: seq<string>, launched: nat)
    requires Holds(trace, scripts, workers, failFast, next, inFlight, failed, launched) && inFlight != map[]
    requires Stopped(trace, failFast) || |inFlight| >= workers || next == |scripts|
    ensures Holds(trace + [Await], scripts, workers, failFast, next, inFlight, failed, launched)
    ensures Failures(trace + [Await]) == Failures(trace)
  {
    hide Legal, InFlight, Submitted, Reported, Failures, Names;
    ViewsSnoc(trace, Await, |scripts|, workers, failFast);
    LegalAccounting(trace, |scripts|, workers, failFast);
    assert |InFlight(trace)| == |inFlight.Keys| == |inFlight|;
  }

  lemma NothingYet(scripts: seq<string>, workers: nat, failFast: bool, fails: nat -> bool)
    ensures Holds([], scripts, workers, failFast, 0, map[], [], 0) && Failures([]) == [] && TrueTo([], fails)
  {
  }

  lemma AllDone(trace: Trace, scripts: seq<string>, workers: nat, failFast: bool,
      next: nat, failed: seq<string>, launched: nat)
    requires Holds(trace, scripts, workers, failFast, next, map[], failed, launched)
    requires Stopped(trace, failFast) || workers == 0 || next == |scripts|
    ensures (forall k | k in Failures(trace) :: k < |scripts|) && failed == Names(scripts, Failures(trace))
    ensures launched == Submitted(trace) <= |scripts| && InFlight(trace) == {} && next == Submitted(trace)
    ensures Legal(trace, |scripts|, workers, failFast)
  {
  }

  lemma HoldsBound(trace: Trace, scripts: seq<string>, workers: nat, failFast: bool,
      next: nat, inFlight: map<nat, string>, failed: seq<string>, launched: nat)
    requires Holds(trace, scripts, workers, failFast, next, inFlight, failed, launched)
    ensures launched <= |scripts| && |failed| == |Failures(trace)|
  {
  }

  /** At the end: who failed, and how often each launched script is named. */
  lemma CompleteOutcome(trace: Trace, scripts: seq<string>, workers: nat, failFast: bool, fails: nat -> bool)
    requires Complete(trace, |scripts|, workers, failFast) && TrueTo(trace, fails) && Submitted(trace) <= |scripts|
    ensures (forall k | k in Failures(trace) :: k < |scripts|) && (forall k | k in Reported(trace) :: k < |scripts|)
    ensures multiset(Names(scripts, Failures(trace))) == multiset(Chosen(scripts, fails, Submitted(trace)))
    ensures multiset(Names(scripts, Reported(trace))) == multiset(scripts[..Submitted(trace)])
  {
    hide Complete, Names, Chosen, TrueTo;
    var n := Submitted(trace);
    CompleteReportsAll(trace, |scripts|, workers, failFast);
    forall k: nat
      ensures Count(Failures(trace), k) == if k < n && fails(k) then 1 else 0
      ensures k in Failures(trace) || k in Reported(trace) ==> k < |scripts|
    {
      FailuresCount(trace, fails, k);
      CountedIsMember(Failures(trace), k);
      CountedIsMember(Reported(trace), k);
    }
    EachOnceIsPermutation(scripts, Failures(trace), fails, n);
    EachOnceIsPermutation(scripts, Reported(trace), Everywhere, n);
    ChosenAll(scripts, Everywhere, n);
  }

  predicate Everywhere(k: nat) {
    true
  }

  /** `run_pooled`; the launcher at place `k` fails if `fails(k)`. */
  method RunPooled(scripts: seq<string>, failFast: bool, workers: nat, fails: nat -> bool)
    returns (failed: seq<string>, launched: nat, ghost trace: Trace)
    requires workers > 0
    // What is launched is a prefix of the input, all of it unless fail-fast met a failure.
    ensures launched <= |scripts| && (!failFast || failed == [] ==> launched == |scripts|)
    // Exactly the launched scripts that fail are returned, each as often as it is launched.
    ensures multiset(failed) == multiset(Chosen(scripts, fails, launched))
    ensures failed == [] <==> forall k | 0 <= k < launched :: !fails(k)
    // The run that leads there.
    ensures Complete(trace, |scripts|, workers, failFast) && TrueTo(trace, fails) && launched == Submitted(trace)
    ensures (forall k | k in Failures(trace) :: k < |scripts|) && failed == Names(scripts, Failures(trace))
  {
    hide Holds, Legal, InFlight, Submitted, Reported, Failures, Names, TrueTo, Chosen;
    failed, launched, trace := [], 0, [];
    var next, inFlight: map<nat, string> := 0, map[];
    NothingYet(scripts, workers, failFast, fails);
    next, inFlight, trace := Schedule(scripts, workers, failFast, next, inFlight, fails, failed, launched, trace);
    var scheduling := true;
    while inFlight != map[]
      invariant Holds(trace, scripts, workers, failFast, next, inFlight, failed, launched) && TrueTo(trace, fails)
      invariant scheduling <==> !Stopped(trace, failFast)
      invariant scheduling ==> |inFlight| >= workers || next == |scripts|
      decreases |scripts| - launched
    {
      AwaitHolds(trace, scripts, workers, failFast, next, inFlight, failed, launched);
      HoldsBound(trace, scripts, workers, failFast, next, inFlight, failed, launched);
      TrueSnoc(trace, Await, fails);
      var done, waited := WaitForSome(inFlight, trace);
      inFlight, failed, launched, trace :=
        ReportBatch(scripts, workers, failFast, next, inFlight, done, fails, failed, launched, waited);
      HoldsBound(trace, scripts, workers, failFast, next, inFlight, failed, launched);
      if failFast && failed != [] {
        scheduling := false;
      }
      if scheduling {
        next, inFlight, trace := Schedule(scripts, workers, failFast, next, inFlight, fails, failed, launched, trace);
      }
    }
    AllDone(trace, scripts, workers, failFast, next, failed, launched);
    CompleteOutcome(trace, scripts, workers, failFast, fails);
    ChosenNone(scripts, fails, launched);
    assert |multiset(failed)| == |failed|;
    NamesLength(scripts, Failures(trace));
  }

  lemma NamesLength(scripts: seq<string>, ks: seq<nat>)
    requires forall k | k in ks :: k < |scripts|
    ensures |Names(scripts, ks)| == |ks|
  {
  }
}
