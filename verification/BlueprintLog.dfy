/** What the log of a run of scripts/authentik_blueprint_sync.py looks like, request by request
    and for every way a run can end, and what follows from it for the order of the applies. */
module BlueprintLog {
  import opened Results
  import opened BlueprintServer
  import opened BlueprintPlan

  // ----- What a record says about a step -----

  /** The record is this step's instance, successful and, where a hash is known, carrying it. */
  predicate Good(record: Instance, name: string, blueprint: Available) {
    record.name == name && record.status == Successful
    && (blueprint.hash.Some? ==> record.lastHash == blueprint.hash)
  }

  /** The record is good, enabled and points to the step's file. */
  predicate AsWanted(record: Instance, name: string, blueprint: Available) {
    Good(record, name, blueprint) && record.path == blueprint.path && record.enabled
  }

  /** Nothing about the record calls for a request. */
  predicate InPlace(record: Instance, name: string, blueprint: Available) {
    AsWanted(record, name, blueprint) && blueprint.hash.Some?
  }

  /** An answer after which the run is over whatever came before: a refusal, or an error. */
  predicate Fatal(e: Event) {
    e.Refused? || (e.Got? && e.record.status == Error)
  }

  ghost predicate NoneFatal(log: seq<Event>) {
    forall i | 0 <= i < |log| :: !Fatal(log[i])
  }

  ghost predicate FatalIsLast(log: seq<Event>) {
    forall i | 0 <= i < |log| - 1 :: !Fatal(log[i])
  }

  // ----- One wait -----

  /** An answer that leaves the matter open: the instance is not in error and has not been
      applied successfully since. */
  predicate Pending(e: Event, pk: Pk, previousApplied: Option<int>) {
    && e.Got? && e.record.pk == pk && e.record.status != Error
    && !(e.record.status == Successful && e.record.lastApplied != previousApplied)
  }

  ghost predicate AllPending(polls: seq<Event>, pk: Pk, previousApplied: Option<int>) {
    forall i | 0 <= i < |polls| :: Pending(polls[i], pk, previousApplied)
  }

  /** The instance as the last poll shows it, if there is one. */
  function LastPoll(polls: seq<Event>): Option<Instance> {
    if polls != [] && polls[|polls| - 1].Got? then Some(polls[|polls| - 1].record) else None
  }

  /** What an answer that is no refusal settles, if anything. */
  ghost predicate Settles(instance: Instance, previousApplied: Option<int>, expected: Option<string>,
      r: Result<Instance, Failure>)
  {
    var (status, hash) := (instance.status, instance.lastHash);
    var applied := status == Successful && instance.lastApplied != previousApplied;
    match r
    case Ok(done) => done == instance && applied && (expected.Some? ==> hash == expected)
    case Err(ApplyFailed(n, e, o)) => status == Error && n == instance.name && e == expected && o == hash
    case Err(WrongHash(n, e, o)) =>
      applied && expected.Some? && hash != expected && n == instance.name && e == expected && o == hash
    case _ => false
  }

  /** The polls of a wait that ends with `r`: all pending but the last, and the last is what the
      result says it is. */
  ghost predicate WaitEnds(polls: seq<Event>, pk: Pk, name: string, previousApplied: Option<int>,
      previousHash: Option<string>, expected: Option<string>, r: Result<Instance, Failure>)
  {
    && |polls| <= 60 && (polls != [] ==> AllPending(polls[..|polls| - 1], pk, previousApplied))
    && match r
       case Err(RequestFailed) => polls != [] && polls[|polls| - 1] == Refused(false)
       case Err(TimedOut(n, e, o)) =>
         && AllPending(polls, pk, previousApplied) && e == expected
         && (polls == [] ==> n == name && o == previousHash)
         && (polls != [] ==>
           LastPoll(polls).Some? && n == LastPoll(polls).value.name && o == LastPoll(polls).value.lastHash)
       case _ =>
         && LastPoll(polls).Some? && LastPoll(polls).value.pk == pk
         && Settles(LastPoll(polls).value, previousApplied, expected, r)
  }

  lemma WaitShape(polls: seq<Event>, pk: Pk, name: string, previousApplied: Option<int>,
      previousHash: Option<string>, expected: Option<string>, r: Result<Instance, Failure>)
    requires WaitEnds(polls, pk, name, previousApplied, previousHash, expected, r)
    ensures FatalIsLast(polls) && forall i | 0 <= i < |polls| :: polls[i].Got? || polls[i] == Refused(false)
    ensures r.Ok? || r.error.TimedOut? || r.error.WrongHash? ==> NoneFatal(polls)
    ensures r.Ok? ==> polls != [] && polls[|polls| - 1] == Got(r.value)
  {
    forall i | 0 <= i < |polls| - 1
      ensures polls[i].Got? && !Fatal(polls[i])
    {
      assert Pending(polls[..|polls| - 1][i], pk, previousApplied);
    }
    if r.Err? && r.error.TimedOut? && polls != [] {
      assert Pending(polls[|polls| - 1], pk, previousApplied);
    }
  }

  // ----- One blueprint step -----

  /** A step's work: the request that makes sure of the instance, if any, the instance it
      leaves, and the polls after the apply. */
  datatype Work = Work(ensured: seq<Event>, base: Instance, polls: seq<Event>)

  function Requests(w: Work): seq<Event> {
    w.ensured + [Applied(w.base.name)] + w.polls
  }

  /** The work starts from a listed record that has the step's name, path and flag, or creates
      or patches one that then has. */
  ghost predicate Begun(w: Work, records: seq<Instance>, name: string, blueprint: Available) {
    && Identity(w.base) == (w.base.pk, name, blueprint.path, true)
    && ((w.ensured == [] && w.base in records) || w.ensured == [Created(w.base)] || w.ensured == [Patched(w.base)])
  }

  ghost predicate Worked(w: Work, records: seq<Instance>, name: string, blueprint: Available, events: seq<Event>,
      r: Result<Instance, Failure>)
  {
    && Begun(w, records, name, blueprint) && events == Requests(w)
    && WaitEnds(w.polls, w.base.pk, w.base.name, w.base.lastApplied, w.base.lastHash, blueprint.hash, r)
  }

  /** A blueprint step that goes well: the opening listing shows its instance in place and
      nothing is asked, or the instance is applied and seen as wanted. */
  ghost predicate BlueprintWent(records: seq<Instance>, name: string, blueprint: Available, events: seq<Event>) {
    || (events == [] && exists base | base in records :: InPlace(base, name, blueprint))
    || exists w, done | AsWanted(done, name, blueprint) :: Worked(w, records, name, blueprint, events, Ok(done))
  }

  /** A blueprint step that fails with this error: a refused create, patch or apply, or a wait
      that ends with the error. */
  ghost predicate BlueprintFailed(records: seq<Instance>, name: string, blueprint: Available, events: seq<Event>,
      error: Failure)
  {
    || (error == RequestFailed && events == [Refused(true)])
    || (error == RequestFailed
        && exists w | Begun(w, records, name, blueprint) :: events == w.ensured + [Refused(true)])
    || exists w :: Worked(w, records, name, blueprint, events, Err(error))
  }

  // ----- The step that binds a policy -----

  /** The binding written, if one was, and whether a stale instance was deleted. */
  datatype BindingWork = BindingWork(write: Option<Event>, stale: bool)

  function BindingRequests(w: BindingWork): seq<Event> {
    [Read, Read, Read] + (if w.write.Some? then [w.write.value] else [])
    + (if w.stale then [Deleted(NAVIDROME)] else [])
  }

  predicate IsBindingWork(w: BindingWork) {
    w.write.Some? ==> w.write.value == BindingPatched || w.write.value == BindingCreated
  }

  ghost predicate BindingWent(events: seq<Event>) {
    exists w | IsBindingWork(w) :: events == BindingRequests(w)
  }

  /** A binding step that fails: what it looks for is not there, or one of its requests is
      refused; the reads come first. */
  ghost predicate BindingFailed(policy: Option<Pk>, target: Option<Pk>, events: seq<Event>, error: Failure) {
    match error
    case NoPolicy => policy.None? && events == [Read]
    case NoTarget => policy.Some? && target.None? && events == [Read, Read]
    case RequestFailed => exists w, n | IsBindingWork(w) && 0 <= n < |BindingRequests(w)| ::
      events == BindingRequests(w)[..n] + [Refused(n >= 3)]
    case _ => false
  }

  // ----- A run -----

  ghost predicate StepWent(records: seq<Instance>, server: Server, step: Step, events: seq<Event>) {
    if IsBlueprint(step) then
      var blueprint := MatchOf(server.available, step.relative);
      blueprint.Some? && BlueprintWent(records, step.name, blueprint.value, events)
    else
      BindingWent(events)
  }

  ghost predicate StepFailed(records: seq<Instance>, server: Server, step: Step, events: seq<Event>, error: Failure) {
    if IsBlueprint(step) then
      match MatchOf(server.available, step.relative)
      case None => events == [] && error == NotOneBlueprint(step.relative)
      case Some(blueprint) => BlueprintFailed(records, step.name, blueprint, events, error)
    else
      BindingFailed(server.policy, server.target, events, error)
  }

  /** The log of the opening requests, for the available files and the instances, and of the
      first `k` steps, all of which went well. */
  ghost predicate Walked(log: seq<Event>, records: seq<Instance>, server: Server, plan: Plan, k: nat)
    requires k <= |plan|
    decreases k
  {
    if k == 0 then log == [Read, Listed(records)]
    else exists m | 0 <= m <= |log| ::
      Walked(log[..m], records, server, plan, k - 1) && StepWent(records, server, plan[k - 1], log[m..])
  }

  /** The plan's blueprint step with this name, and the hash its file carries. */
  ghost predicate Expects(plan: Plan, available: seq<Available>, name: string, hash: Option<string>) {
    exists j | 0 <= j < |plan| && IsBlueprint(plan[j]) && plan[j].name == name ::
      MatchOf(available, plan[j].relative).Some? && MatchOf(available, plan[j].relative).value.hash == hash
  }

  /** What the closing listing says against the plan, by kind of complaint. */
  ghost predicate Complains(plan: Plan, available: seq<Available>, records: seq<Instance>, failure: Failure) {
    match failure
    case MissingInstances(names) =>
      names != {} && forall n :: n in names <==>
        (exists j | 0 <= j < |plan| && IsBlueprint(plan[j]) :: plan[j].name == n)
        && (forall i | 0 <= i < |records| :: records[i].name != n)
    case ApplyFailed(name, expected, observed) =>
      exists record | record in records :: record.name == name && record.status == Error
        && record.lastHash == observed && expected.Some? && Expects(plan, available, name, expected)
    case WrongHash(name, expected, observed) =>
      exists record | record in records :: record.name == name && record.status == Successful
        && record.lastHash == observed != expected && expected.Some? && Expects(plan, available, name, expected)
    case NotAllSuccessful =>
      exists record, j | record in records && 0 <= j < |plan| && IsBlueprint(plan[j]) ::
        record.name == plan[j].name && record.status != Successful
    case _ => false
  }

  /** The closing listing bears the outcome out. */
  ghost predicate Concluded(plan: Plan, available: seq<Available>, e: Event, failure: Option<Failure>) {
    match failure
    case None => e.Listed? && forall j | 0 <= j < |plan| && IsBlueprint(plan[j]) ::
      MatchOf(available, plan[j].relative).Some?
      && (exists record | record in e.records :: record.name == plan[j].name)
      && (forall record | record in e.records && record.name == plan[j].name ::
            Good(record, plan[j].name, MatchOf(available, plan[j].relative).value))
    case Some(RequestFailed) => e == Refused(false)
    case Some(error) => e.Listed? && Complains(plan, available, e.records, error)
  }

  ghost predicate WalkedAll(log: seq<Event>, server: Server, plan: Plan) {
    exists records :: Walked(log, records, server, plan, |plan|)
  }

  /** A run that fails at plan step `k`, whose requests begin at `m`. */
  ghost predicate StoppedAt(log: seq<Event>, records: seq<Instance>, server: Server, plan: Plan, k: int, m: int,
      error: Failure)
  {
    && 0 <= k < |plan| && 0 <= m <= |log|
    && Walked(log[..m], records, server, plan, k) && StepFailed(records, server, plan[k], log[m..], error)
  }

  /** The log of a whole run that ends with this failure, or with none: an opening request is
      refused; or a step fails and nothing follows its requests; or all steps go well and the
      closing listing decides. */
  ghost predicate RunLog(log: seq<Event>, server: Server, plan: Plan, failure: Option<Failure>) {
    || ((log == [Refused(false)] || log == [Read, Refused(false)]) && failure == Some(RequestFailed))
    || (failure.Some? && exists records, k, m :: StoppedAt(log, records, server, plan, k, m, failure.value))
    || (log != [] && Concluded(plan, server.available, log[|log| - 1], failure)
        && WalkedAll(log[..|log| - 1], server, plan))
  }

  // ----- What a log says was done -----

  datatype Action = CreatedInstance | UpdatedInstance | AppliedInstance | CreatedBinding | UpdatedBinding | DeletedStale

  function ActionOf(e: Event): seq<Action> {
    match e
    case Created(_) => [CreatedInstance]
    case Patched(_) => [UpdatedInstance]
    case Applied(_) => [AppliedInstance]
    case BindingCreated => [CreatedBinding]
    case BindingPatched => [UpdatedBinding]
    case Deleted(_) => [DeletedStale]
    case _ => []
  }

  /** The actions the log shows for the step of this name, in order. */
  function ActionsFor(log: seq<Event>, name: string): seq<Action> {
    if log == [] then []
    else
      var last := log[|log| - 1];
      ActionsFor(log[..|log| - 1], name) + (if Touched(last) == Some(name) then ActionOf(last) else [])
  }

  lemma {:induction false} ActionsConcat(a: seq<Event>, b: seq<Event>, name: string)
    ensures ActionsFor(a + b, name) == ActionsFor(a, name) + ActionsFor(b, name)
    decreases |b|
  {
    hide ActionOf, Touched;
    if b == [] {
      assert a + b == a;
    } else {
      var n := |b| - 1;
      assert (a + b)[..|a + b| - 1] == a + b[..n];
      ActionsConcat(a, b[..n], name);
    }
  }

  lemma {:induction false} NoActions(log: seq<Event>, name: string)
    requires Untouched(log, name)
    ensures ActionsFor(log, name) == []
    decreases |log|
  {
    if log != [] {
      NoActions(log[..|log| - 1], name);
    }
  }

  lemma OneAction(e: Event, name: string)
    ensures ActionsFor([e], name) == if Touched(e) == Some(name) then ActionOf(e) else []
  {
    assert [e][..0] == [];
  }

  // ----- Safety of the order of applies -----

  ghost function StepOf(plan: Plan, name: string): (k: int)
    ensures k == -1 || (0 <= k < |plan| && plan[k].name == name)
    ensures k == -1 ==> forall j | 0 <= j < |plan| :: plan[j].name != name
  {
    if exists j | 0 <= j < |plan| :: plan[j].name == name then
      var j :| 0 <= j < |plan| && plan[j].name == name;
      j
    else
      -1
  }

  /** The name of the instance a request creates, patches, applies or deletes; for the binding
      that of the step that sees to it. */
  function Touched(e: Event): Option<string> {
    match e
    case Created(record) => Some(record.name)
    case Patched(record) => Some(record.name)
    case Applied(name) => Some(name)
    case Deleted(name) => Some(name)
    case BindingPatched => Some(NAVIDROME)
    case BindingCreated => Some(NAVIDROME)
    case _ => None
  }

  ghost predicate Untouched(log: seq<Event>, name: string) {
    forall i | 0 <= i < |log| :: Touched(log[i]) != Some(name)
  }

  ghost predicate TouchesOnly(log: seq<Event>, name: string) {
    forall i | 0 <= i < |log| :: Touched(log[i]) == None || Touched(log[i]) == Some(name)
  }

  ghost predicate AtMostOneApply(log: seq<Event>, name: string) {
    && (forall i | 0 <= i < |log| && log[i].Applied? :: log[i].name == name)
    && (forall i, j | 0 <= i < j < |log| :: !(log[i].Applied? && log[j].Applied?))
  }

  ghost predicate Shows(e: Event, record: Instance) {
    e == Got(record) || (e.Listed? && record in e.records)
  }

  /** Answer `i` shows the step's instance as wanted, and no later request touches its name. */
  ghost predicate SeenAt(log: seq<Event>, i: int, name: string, blueprint: Available)
    requires 0 <= i < |log|
  {
    (exists record | AsWanted(record, name, blueprint) :: Shows(log[i], record)) && Untouched(log[i + 1..], name)
  }

  ghost predicate StepObserved(log: seq<Event>, step: Step, available: seq<Available>) {
    MatchOf(available, step.relative).Some?
    && exists i | 0 <= i < |log| :: SeenAt(log, i, step.name, MatchOf(available, step.relative).value)
  }

  /** Every blueprint step before step `k` has been seen as wanted, with its expected hash where
      one is known, since its instance was last created, patched or applied. */
  ghost predicate EarlierObserved(log: seq<Event>, plan: Plan, available: seq<Available>, k: int)
    requires k <= |plan|
  {
    forall j | 0 <= j < k && IsBlueprint(plan[j]) :: StepObserved(log, plan[j], available)
  }

  ghost predicate ApplyJustified(log: seq<Event>, x: int, plan: Plan, available: seq<Available>, limit: int)
    requires 0 <= x < |log| && log[x].Applied? && limit <= |plan|
  {
    var k := StepOf(plan, log[x].name);
    0 <= k < limit && IsBlueprint(plan[k]) && EarlierObserved(log[..x], plan, available, k)
  }

  /** Applies follow the plan, and each comes after all earlier blueprints were seen as wanted. */
  ghost predicate AppliesInOrder(log: seq<Event>, plan: Plan, available: seq<Available>, limit: int)
    requires limit <= |plan|
  {
    && (forall x | 0 <= x < |log| && log[x].Applied? :: ApplyJustified(log, x, plan, available, limit))
    && (forall x, y | 0 <= x < y < |log| && log[x].Applied? && log[y].Applied? ::
          StepOf(plan, log[x].name) < StepOf(plan, log[y].name))
  }

  lemma SeenLater(log: seq<Event>, more: seq<Event>, i: int, name: string, blueprint: Available)
    requires 0 <= i < |log| && SeenAt(log, i, name, blueprint) && Untouched(more, name)
    ensures SeenAt(log + more, i, name, blueprint)
  {
    var tail := (log + more)[i + 1..];
    assert (log + more)[i] == log[i];
    assert tail == log[i + 1..] + more;
  }

  lemma ObservedLater(log: seq<Event>, more: seq<Event>, plan: Plan, available: seq<Available>, k: int)
    requires k <= |plan| && EarlierObserved(log, plan, available, k)
    requires forall j | 0 <= j < k && IsBlueprint(plan[j]) :: Untouched(more, plan[j].name)
    ensures EarlierObserved(log + more, plan, available, k)
  {
    hide SeenAt, Untouched;
    forall j | 0 <= j < k && IsBlueprint(plan[j])
      ensures StepObserved(log + more, plan[j], available)
    {
      var blueprint := MatchOf(available, plan[j].relative).value;
      assert StepObserved(log, plan[j], available);
      var i :| 0 <= i < |log| && SeenAt(log, i, plan[j].name, blueprint);
      SeenLater(log, more, i, plan[j].name, blueprint);
    }
  }

  lemma OthersUntouched(events: seq<Event>, n: nat, plan: Plan, k: nat)
    requires k < |plan| && DistinctNames(plan) && TouchesOnly(events, plan[k].name) && n <= |events|
    ensures forall j | 0 <= j < |plan| && j != k :: Untouched(events[..n], plan[j].name)
  {
  }

  lemma AppliesExtended(log: seq<Event>, more: seq<Event>, plan: Plan, available: seq<Available>, k: nat)
    requires k < |plan| && DistinctNames(plan)
    requires AppliesInOrder(log, plan, available, k) && EarlierObserved(log, plan, available, k)
    requires AtMostOneApply(more, plan[k].name) && TouchesOnly(more, plan[k].name)
    requires IsBlueprint(plan[k]) || forall i | 0 <= i < |more| :: !more[i].Applied?
    ensures AppliesInOrder(log + more, plan, available, k + 1)
  {
    hide EarlierObserved, TouchesOnly, Untouched;
    var all := log + more;
    assert StepOf(plan, plan[k].name) == k;
    forall x | 0 <= x < |all| && all[x].Applied?
      ensures ApplyJustified(all, x, plan, available, k + 1)
      ensures x >= |log| ==> StepOf(plan, all[x].name) == k
      ensures x < |log| ==> StepOf(plan, all[x].name) < k
    {
      if x < |log| {
        assert ApplyJustified(log, x, plan, available, k);
        assert all[..x] == log[..x];
      } else {
        assert all[x] == more[x - |log|];
        assert all[..x] == log + more[..x - |log|];
        OthersUntouched(more, x - |log|, plan, k);
        ObservedLater(log, more[..x - |log|], plan, available, k);
      }
    }
    forall x, y | |log| <= x < y < |all|
      ensures !(all[x].Applied? && all[y].Applied?)
    {
      assert all[x] == more[x - |log|] && all[y] == more[y - |log|];
    }
    forall x, y | 0 <= x < y < |all| && all[x].Applied? && all[y].Applied?
      ensures StepOf(plan, all[x].name) < StepOf(plan, all[y].name)
    {
      if y < |log| {
        assert all[x] == log[x] && all[y] == log[y];
      }
    }
  }

  // ----- The shape of a step's requests -----

  lemma WorkedShape(w: Work, records: seq<Instance>, name: string, blueprint: Available, events: seq<Event>,
      r: Result<Instance, Failure>)
    requires Worked(w, records, name, blueprint, events, r)
    ensures AtMostOneApply(events, name) && TouchesOnly(events, name) && FatalIsLast(events)
    ensures r.Ok? ==> NoneFatal(events) && events != [] && events[|events| - 1] == Got(r.value)
  {
    hide WaitEnds;
    WaitShape(w.polls, w.base.pk, w.base.name, w.base.lastApplied, w.base.lastHash, blueprint.hash, r);
    var n := |w.ensured|;
    assert forall i | 0 <= i < |events| ::
      events[i] == if i < n then w.ensured[i] else if i == n then Applied(name) else w.polls[i - n - 1];
  }

  lemma BlueprintWentShape(records: seq<Instance>, name: string, blueprint: Available, events: seq<Event>)
    requires BlueprintWent(records, name, blueprint, events)
    ensures AtMostOneApply(events, name) && TouchesOnly(events, name) && NoneFatal(events)
    ensures events == [] ==> exists base | base in records :: AsWanted(base, name, blueprint)
    ensures events != [] ==> exists done | AsWanted(done, name, blueprint) :: events[|events| - 1] == Got(done)
  {
    if events != [] || !exists base | base in records :: InPlace(base, name, blueprint) {
      var w, done :| AsWanted(done, name, blueprint) && Worked(w, records, name, blueprint, events, Ok(done));
      WorkedShape(w, records, name, blueprint, events, Ok(done));
    }
  }

  lemma BlueprintFailedShape(records: seq<Instance>, name: string, blueprint: Available, events: seq<Event>,
      error: Failure)
    requires BlueprintFailed(records, name, blueprint, events, error)
    ensures AtMostOneApply(events, name) && TouchesOnly(events, name) && FatalIsLast(events)
  {
    hide Worked, Begun;
    if w :| Worked(w, records, name, blueprint, events, Err(error)) {
      WorkedShape(w, records, name, blueprint, events, Err(error));
    } else if w :| Begun(w, records, name, blueprint) && events == w.ensured + [Refused(true)] {
      RefusedShape(w, records, name, blueprint);
    }
  }

  lemma RefusedShape(w: Work, records: seq<Instance>, name: string, blueprint: Available)
    requires Begun(w, records, name, blueprint)
    ensures var events := w.ensured + [Refused(true)];
      AtMostOneApply(events, name) && TouchesOnly(events, name) && FatalIsLast(events)
  {
  }

  /** A request of the binding step: a read, a write of its own, no apply. */
  predicate OfBinding(e: Event) {
    !e.Applied? && !e.Created? && !e.Patched? && !Fatal(e) && (Touched(e) == None || Touched(e) == Some(NAVIDROME))
  }

  lemma RequestsOfBinding(w: BindingWork)
    requires IsBindingWork(w)
    ensures forall i | 0 <= i < |BindingRequests(w)| :: OfBinding(BindingRequests(w)[i])
  {
  }

  lemma ShapeOfBinding(done: seq<Event>, events: seq<Event>)
    requires forall i | 0 <= i < |done| :: OfBinding(done[i])
    requires events == done || events == done + [Refused(false)] || events == done + [Refused(true)]
    ensures (forall i | 0 <= i < |events| :: !events[i].Applied?) && TouchesOnly(events, NAVIDROME)
    ensures FatalIsLast(events) && (events == done ==> NoneFatal(events))
  {
    assert forall i | 0 <= i < |done| :: events[i] == done[i];
  }

  lemma BindingWentShape(events: seq<Event>)
    requires BindingWent(events)
    ensures (forall i | 0 <= i < |events| :: !events[i].Applied?) && TouchesOnly(events, NAVIDROME)
    ensures FatalIsLast(events) && NoneFatal(events)
  {
    hide BindingRequests, IsBindingWork, OfBinding, TouchesOnly, FatalIsLast, NoneFatal;
    var w :| IsBindingWork(w) && events == BindingRequests(w);
    RequestsOfBinding(w);
    ShapeOfBinding(events, events);
  }

  lemma BindingFailedShape(policy: Option<Pk>, target: Option<Pk>, events: seq<Event>, error: Failure)
    requires BindingFailed(policy, target, events, error)
    ensures (forall i | 0 <= i < |events| :: !events[i].Applied?) && TouchesOnly(events, NAVIDROME)
    ensures FatalIsLast(events)
  {
    hide BindingRequests, IsBindingWork, TouchesOnly, FatalIsLast;
    if error.RequestFailed? {
      hide OfBinding;
      var w, n :| IsBindingWork(w) && 0 <= n < |BindingRequests(w)|
        && events == BindingRequests(w)[..n] + [Refused(n >= 3)];
      RequestsOfBinding(w);
      ShapeOfBinding(BindingRequests(w)[..n], events);
    } else {
      ShapeOfBinding(events, events);
    }
  }

  lemma StepShape(records: seq<Instance>, server: Server, step: Step, events: seq<Event>, error: Failure)
    requires StepWent(records, server, step, events) || StepFailed(records, server, step, events, error)
    ensures AtMostOneApply(events, step.name) && TouchesOnly(events, step.name) && FatalIsLast(events)
    ensures IsBlueprint(step) || forall i | 0 <= i < |events| :: !events[i].Applied?
    ensures StepWent(records, server, step, events) ==> NoneFatal(events)
  {
    hide BlueprintWent, BlueprintFailed, BindingWent, BindingFailed;
    if IsBlueprint(step) {
      var blueprint := MatchOf(server.available, step.relative);
      if StepWent(records, server, step, events) {
        BlueprintWentShape(records, step.name, blueprint.value, events);
      } else if blueprint.Some? {
        BlueprintFailedShape(records, step.name, blueprint.value, events, error);
      }
    } else if StepWent(records, server, step, events) {
      BindingWentShape(events);
    } else {
      BindingFailedShape(server.policy, server.target, events, error);
    }
  }

  // ----- What follows for every run -----

  /** The step itself has now been seen as well. */
  lemma SeenAfter(log: seq<Event>, events: seq<Event>, records: seq<Instance>, server: Server, step: Step)
    requires |log| > 1 && log[1] == Listed(records) && Untouched(log, step.name)
    requires IsBlueprint(step) && StepWent(records, server, step, events)
    ensures StepObserved(log + events, step, server.available)
  {
    hide BlueprintWent;
    var blueprint := MatchOf(server.available, step.relative).value;
    BlueprintWentShape(records, step.name, blueprint, events);
    var all := log + events;
    if events == [] {
      assert all == log;
      assert SeenAt(all, 1, step.name, blueprint);
    } else {
      assert all[|all| - 1] == events[|events| - 1];
      assert all[|all|..] == [];
      assert SeenAt(all, |all| - 1, step.name, blueprint);
    }
  }

  /** Along the walk nothing fails, applies keep to the plan and to what has been seen, and the
      instances of later steps are not touched. */
  lemma {:induction false} WalkIsSafe(log: seq<Event>, records: seq<Instance>, server: Server, plan: Plan, k: nat)
    requires DistinctNames(plan) && k <= |plan| && Walked(log, records, server, plan, k)
    ensures |log| > 1 && log[1] == Listed(records) && NoneFatal(log)
    ensures AppliesInOrder(log, plan, server.available, k) && EarlierObserved(log, plan, server.available, k)
    ensures forall j | k <= j < |plan| :: Untouched(log, plan[j].name)
    decreases k
  {
    hide StepWent, AppliesInOrder, EarlierObserved, Untouched, NoneFatal;
    if k == 0 {
      ListingIsSafe(records, plan, server.available);
    } else {
      var m :| 0 <= m <= |log|
        && Walked(log[..m], records, server, plan, k - 1) && StepWent(records, server, plan[k - 1], log[m..]);
      WalkIsSafe(log[..m], records, server, plan, k - 1);
      StepIsSafe(log[..m], log[m..], records, server, plan, k - 1);
      assert log == log[..m] + log[m..];
    }
  }

  lemma ListingIsSafe(records: seq<Instance>, plan: Plan, available: seq<Available>)
    ensures NoneFatal([Read, Listed(records)])
    ensures AppliesInOrder([Read, Listed(records)], plan, available, 0)
      && EarlierObserved([Read, Listed(records)], plan, available, 0)
    ensures forall j | 0 <= j < |plan| :: Untouched([Read, Listed(records)], plan[j].name)
  {
  }

  lemma StepIsSafe(log: seq<Event>, events: seq<Event>, records: seq<Instance>, server: Server, plan: Plan, k: nat)
    requires DistinctNames(plan) && k < |plan| && StepWent(records, server, plan[k], events)
    requires |log| > 1 && log[1] == Listed(records) && NoneFatal(log)
    requires AppliesInOrder(log, plan, server.available, k) && EarlierObserved(log, plan, server.available, k)
    requires forall j | k <= j < |plan| :: Untouched(log, plan[j].name)
    ensures NoneFatal(log + events)
    ensures AppliesInOrder(log + events, plan, server.available, k + 1)
    ensures EarlierObserved(log + events, plan, server.available, k + 1)
    ensures forall j | k + 1 <= j < |plan| :: Untouched(log + events, plan[j].name)
  {
    hide AppliesInOrder, StepWent, StepObserved, AtMostOneApply, TouchesOnly;
    StepShape(records, server, plan[k], events, RequestFailed);
    AppliesExtended(log, events, plan, server.available, k);
    OthersUntouched(events, |events|, plan, k);
    assert events[..|events|] == events;
    ObservedLater(log, events, plan, server.available, k);
    if IsBlueprint(plan[k]) {
      SeenAfter(log, events, records, server, plan[k]);
    }
  }

  lemma LimitRaised(log: seq<Event>, plan: Plan, available: seq<Available>, k: int)
    requires k <= |plan| && AppliesInOrder(log, plan, available, k)
    ensures AppliesInOrder(log, plan, available, |plan|)
  {
    forall x | 0 <= x < |log| && log[x].Applied?
      ensures ApplyJustified(log, x, plan, available, |plan|)
    {
      assert ApplyJustified(log, x, plan, available, k);
    }
  }

  lemma ConcludedIsSafe(log: seq<Event>, request: Event, plan: Plan, available: seq<Available>)
    requires NoneFatal(log) && AppliesInOrder(log, plan, available, |plan|)
      && EarlierObserved(log, plan, available, |plan|)
    requires request.Listed? || request == Refused(false)
    ensures FatalIsLast(log + [request]) && AppliesInOrder(log + [request], plan, available, |plan|)
    ensures EarlierObserved(log + [request], plan, available, |plan|)
    ensures request.Listed? ==> NoneFatal(log + [request])
  {
    var all := log + [request];
    ObservedLater(log, [request], plan, available, |plan|);
    forall x | 0 <= x < |all| && all[x].Applied?
      ensures ApplyJustified(all, x, plan, available, |plan|)
    {
      assert ApplyJustified(log, x, plan, available, |plan|);
      assert all[..x] == log[..x];
    }
  }

  /** Every run, however it ends: an apply comes in plan order and only after every earlier
      blueprint was seen as wanted since it was last touched; and no request follows a refusal
      or an instance in error. */
  lemma RunIsSafe(log: seq<Event>, server: Server, plan: Plan, failure: Option<Failure>)
    requires DistinctNames(plan) && RunLog(log, server, plan, failure)
    ensures AppliesInOrder(log, plan, server.available, |plan|) && FatalIsLast(log)
    ensures failure.None? ==> NoneFatal(log) && EarlierObserved(log, plan, server.available, |plan|)
  {
    hide AppliesInOrder, EarlierObserved, NoneFatal, FatalIsLast, StoppedAt, WalkedAll, Concluded;
    if (log == [Refused(false)] || log == [Read, Refused(false)]) && failure == Some(RequestFailed) {
      RefusedIsSafe(log, plan, server.available);
    } else if records, k, m :| failure.Some? && StoppedAt(log, records, server, plan, k, m, failure.value) {
      StoppedIsSafe(log, records, server, plan, k, m, failure.value);
    } else {
      var front, last := log[..|log| - 1], log[|log| - 1];
      AllWalkedIsSafe(front, server, plan);
      LastRequest(plan, server.available, last, failure);
      ConcludedIsSafe(front, last, plan, server.available);
      assert log == front + [last];
    }
  }

  lemma RefusedIsSafe(log: seq<Event>, plan: Plan, available: seq<Available>)
    requires log == [Refused(false)] || log == [Read, Refused(false)]
    ensures AppliesInOrder(log, plan, available, |plan|) && FatalIsLast(log)
  {
  }

  lemma LastRequest(plan: Plan, available: seq<Available>, e: Event, failure: Option<Failure>)
    requires Concluded(plan, available, e, failure)
    ensures e.Listed? || (e == Refused(false) && failure.Some?)
  {
  }

  lemma AllWalkedIsSafe(log: seq<Event>, server: Server, plan: Plan)
    requires DistinctNames(plan) && WalkedAll(log, server, plan)
    ensures NoneFatal(log) && AppliesInOrder(log, plan, server.available, |plan|)
    ensures EarlierObserved(log, plan, server.available, |plan|)
  {
    var records :| Walked(log, records, server, plan, |plan|);
    WalkIsSafe(log, records, server, plan, |plan|);
  }

  lemma StoppedIsSafe(log: seq<Event>, records: seq<Instance>, server: Server, plan: Plan, k: int, m: int,
      error: Failure)
    requires DistinctNames(plan) && StoppedAt(log, records, server, plan, k, m, error)
    ensures AppliesInOrder(log, plan, server.available, |plan|) && FatalIsLast(log)
  {
    hide AppliesInOrder, EarlierObserved, StepFailed, Walked, AtMostOneApply, TouchesOnly, Untouched;
    var front, events := log[..m], log[m..];
    WalkIsSafe(front, records, server, plan, k);
    StepShape(records, server, plan[k], events, error);
    AppliesExtended(front, events, plan, server.available, k);
    LimitRaised(front + events, plan, server.available, k + 1);
    assert log == front + events;
  }

  // ----- The last request -----

  /** The last request of a log is the one that failed, or whose answer shows the failure; only a
      missing blueprint file takes no request to see. */
  ghost predicate LastBearsOut(log: seq<Event>, error: Failure) {
    log != [] &&
    var last := log[|log| - 1];
    match error
    case RequestFailed => last.Refused?
    case ApplyFailed(name, _, observed) =>
      exists record: Instance | record.name == name && record.status == Error && record.lastHash == observed ::
        Shows(last, record)
    case WrongHash(name, expected, observed) =>
      exists record: Instance | record.name == name && record.status == Successful ::
        record.lastHash == observed != expected && Shows(last, record)
    case TimedOut(name, _, observed) =>
      last == Applied(name) || (last.Got? && last.record.name == name && last.record.lastHash == observed)
    case NoPolicy => last == Read
    case NoTarget => last == Read
    case MissingInstances(_) => last.Listed?
    case NotAllSuccessful => last.Listed?
    case NotOneBlueprint(_) => true
  }

  lemma WorkBearsOut(w: Work, records: seq<Instance>, name: string, blueprint: Available, events: seq<Event>,
      error: Failure)
    requires Worked(w, records, name, blueprint, events, Err(error))
    ensures LastBearsOut(events, error)
  {
    var last := events[|events| - 1];
    if w.polls == [] {
      assert last == Applied(w.base.name);
    } else {
      assert last == w.polls[|w.polls| - 1];
      if LastPoll(w.polls).Some? {
        assert Shows(last, LastPoll(w.polls).value);
      }
    }
  }

  lemma StepBearsOut(records: seq<Instance>, server: Server, step: Step, events: seq<Event>, error: Failure)
    requires StepFailed(records, server, step, events, error) && !error.NotOneBlueprint?
    ensures LastBearsOut(events, error)
  {
    hide Worked, Begun, BindingRequests;
    if IsBlueprint(step) {
      var blueprint := MatchOf(server.available, step.relative).value;
      if w :| Worked(w, records, step.name, blueprint, events, Err(error)) {
        WorkBearsOut(w, records, step.name, blueprint, events, error);
      }
    }
  }

  lemma LastBearsOutLater(front: seq<Event>, events: seq<Event>, error: Failure)
    requires LastBearsOut(events, error)
    ensures LastBearsOut(front + events, error)
  {
    var all := front + events;
    assert all[|all| - 1] == events[|events| - 1];
  }

  lemma ConclusionBearsOut(plan: Plan, available: seq<Available>, e: Event, error: Failure)
    requires Concluded(plan, available, e, Some(error))
    ensures LastBearsOut([e], error)
  {
    match error
    case ApplyFailed(name, expected, observed) =>
      var record :| record in e.records && record.name == name && record.status == Error && record.lastHash == observed;
      assert Shows(e, record);
    case WrongHash(name, expected, observed) =>
      var record :| record in e.records && record.name == name && record.status == Successful
        && record.lastHash == observed != expected;
      assert Shows(e, record);
    case _ =>
  }

  /** However a run fails, the request that shows it is the last. */
  lemma FailureIsLast(log: seq<Event>, server: Server, plan: Plan, error: Failure)
    requires RunLog(log, server, plan, Some(error)) && DistinctNames(plan)
    ensures LastBearsOut(log, error)
  {
    hide LastBearsOut, Concluded, StepFailed, WalkedAll, Walked;
    if (log == [Refused(false)] || log == [Read, Refused(false)]) && error == RequestFailed {
      RefusalBearsOut(log);
    } else if records, k, m :| StoppedAt(log, records, server, plan, k, m, error) {
      assert log == log[..m] + log[m..];
      if error.NotOneBlueprint? {
        WalkIsSafe(log[..m], records, server, plan, k);
        NothingToAsk(log, error);
      } else {
        StepBearsOut(records, server, plan[k], log[m..], error);
        LastBearsOutLater(log[..m], log[m..], error);
      }
    } else {
      var n := |log| - 1;
      ConclusionBearsOut(plan, server.available, log[n], error);
      LastBearsOutLater(log[..n], [log[n]], error);
      assert log == log[..n] + [log[n]];
    }
  }

  lemma RefusalBearsOut(log: seq<Event>)
    requires log == [Refused(false)] || log == [Read, Refused(false)]
    ensures LastBearsOut(log, RequestFailed)
  {
  }

  lemma NothingToAsk(log: seq<Event>, error: Failure)
    requires log != [] && error.NotOneBlueprint?
    ensures LastBearsOut(log, error)
  {
  }
}
