/** The step of scripts/authentik_blueprint_sync.py that binds a policy, one step of either kind,
    what a finished step leaves behind, and the closing verification. */
module BlueprintRun {
  import opened Results
  import opened BlueprintServer
  import opened BlueprintPlan
  import opened BlueprintLog
  import opened BlueprintReconcile

  // ----- The step that binds a policy instead of applying a blueprint -----

  function Desired(policy: Pk, target: Pk): Binding {
    Binding(0, policy, target, 0, true, false, false, 10)
  }

  predicate Binds(b: Binding, policy: Pk, target: Pk) {
    b.policy == policy && b.target == target
  }

  /** The first binding of the policy to the target, or the length of the list. */
  function FirstBinding(bindings: seq<Binding>, policy: Pk, target: Pk): (i: nat)
    ensures i <= |bindings|
    ensures forall k | 0 <= k < i :: !Binds(bindings[k], policy, target)
    ensures i < |bindings| ==> Binds(bindings[i], policy, target)
  {
    if bindings == [] || Binds(bindings[0], policy, target) then 0
    else 1 + FirstBinding(bindings[1..], policy, target)
  }

  predicate BindingInPlace(bindings: seq<Binding>, policy: Pk, target: Pk) {
    var i := FirstBinding(bindings, policy, target);
    i < |bindings| && bindings[i] == Desired(policy, target).(pk := bindings[i].pk)
  }

  lemma OverwrittenIsInPlace(bindings: seq<Binding>, policy: Pk, target: Pk)
    requires FirstBinding(bindings, policy, target) < |bindings|
    ensures var pk := bindings[FirstBinding(bindings, policy, target)].pk;
      BindingInPlace(Overwritten(bindings, pk, Desired(policy, target)), policy, target)
  {
    var i := FirstBinding(bindings, policy, target);
    var after := Overwritten(bindings, bindings[i].pk, Desired(policy, target));
    var k := FirstBinding(after, policy, target);
    hide FirstBinding;
    assert Binds(after[i], policy, target);
    assert k <= i;
    assert Binds(after[k], policy, target);
    assert k < i ==> !Binds(bindings[k], policy, target);
  }

  lemma InsertedIsInPlace(bindings: seq<Binding>, policy: Pk, target: Pk, at: nat, pk: Pk)
    requires FirstBinding(bindings, policy, target) == |bindings| && at <= |bindings|
    ensures BindingInPlace(bindings[..at] + [Desired(policy, target).(pk := pk)] + bindings[at..], policy, target)
  {
    var after := bindings[..at] + [Desired(policy, target).(pk := pk)] + bindings[at..];
    assert Binds(after[at], policy, target);
    forall k | 0 <= k < at
      ensures !Binds(after[k], policy, target)
    {
      assert after[k] == bindings[k];
    }
    assert FirstBinding(after, policy, target) == at;
  }

  /** The first binding of this policy to this target is the only kind the program wants: at
      order zero, enabled, neither negated nor passing on failure, with ten seconds to answer. */
  ghost predicate BoundAsWanted(bindings: seq<Binding>, policy: Pk, target: Pk) {
    exists i | 0 <= i < |bindings| && bindings[i].policy == policy && bindings[i].target == target ::
      && (forall k | 0 <= k < i :: bindings[k].policy != policy || bindings[k].target != target)
      && bindings[i].order == 0 && bindings[i].enabled && !bindings[i].negate && !bindings[i].failureResult
      && bindings[i].timeout == 10
  }

  lemma InPlaceIsWanted(bindings: seq<Binding>, policy: Pk, target: Pk)
    ensures BindingInPlace(bindings, policy, target) <==> BoundAsWanted(bindings, policy, target)
  {
  }

  ghost predicate ServerBindingInPlace(server: Server, bindings: seq<Binding>) {
    server.policy.Some? && server.target.Some? && BoundAsWanted(bindings, server.policy.value, server.target.value)
  }

  /** Correct the first binding of the policy to the target, or add one. */
  method WriteBinding(server: Server, policy: Pk, target: Pk) returns (r: Result<Action, Failure>, ghost request: Event)
    requires WellKeyed(server.table)
    modifies server`table, server`bindings, server`log, server`now
    ensures server.log == old(server.log) + [request]
    ensures r.Err? ==> r.error == RequestFailed && request == Refused(true)
    ensures r.Ok? ==>
      && SameIdentity(old(server.table), server.table) && WellKeyed(server.table)
      && (request == BindingPatched || request == BindingCreated) && [r.value] == ActionOf(request)
      && BindingInPlace(server.bindings, policy, target)
  {
    var bindings := server.bindings;
    var i := FirstBinding(bindings, policy, target);
    if i < |bindings| {
      OverwrittenIsInPlace(bindings, policy, target);
      var patched := server.PatchBinding(bindings[i].pk, Desired(policy, target));
      if patched.Err? {
        return Err(patched.error), Refused(true);
      }
      return Ok(UpdatedBinding), BindingPatched;
    }
    var created, at := server.CreateBinding(Desired(policy, target));
    if created.Err? {
      return Err(created.error), Refused(true);
    }
    ghost var pk :| server.bindings == bindings[..at] + [Desired(policy, target).(pk := pk)] + bindings[at..];
    InsertedIsInPlace(bindings, policy, target, at, pk);
    return Ok(CreatedBinding), BindingCreated;
  }

  /** The policy list, the flow export and the list of bindings: the policy, the target and
      the bindings, or the first thing that is not there. */
  method FindBindings(server: Server) returns (r: Result<(Pk, Pk), Failure>, ghost events: seq<Event>)
    requires WellKeyed(server.table)
    modifies server`table, server`log, server`now
    ensures server.log == old(server.log) + events && Quiet(events)
    ensures r.Err? ==> BindingFailed(server.policy, server.target, events, r.error)
    ensures r.Ok? ==>
      && SameIdentity(old(server.table), server.table) && WellKeyed(server.table)
      && events == [Read, Read, Read]
      && server.policy == Some(r.value.0) && server.target == Some(r.value.1)
  {
    ReadRefused(server.policy, server.target);
    var policies := server.ReadBindings();
    if policies.Err? {
      return Err(policies.error), [Refused(false)];
    }
    if server.policy.None? {
      return Err(NoPolicy), [Read];
    }
    var export_ := server.ReadBindings();
    if export_.Err? {
      return Err(export_.error), [Read, Refused(false)];
    }
    if server.target.None? {
      return Err(NoTarget), [Read, Read];
    }
    var listed := server.ReadBindings();
    if listed.Err? {
      return Err(listed.error), [Read, Read, Refused(false)];
    }
    return Ok((server.policy.value, server.target.value)), [Read, Read, Read];
  }

  lemma ReadRefused(policy: Option<Pk>, target: Option<Pk>)
    ensures BindingFailed(policy, target, [Refused(false)], RequestFailed)
    ensures BindingFailed(policy, target, [Read, Refused(false)], RequestFailed)
    ensures BindingFailed(policy, target, [Read, Read, Refused(false)], RequestFailed)
  {
    var w := BindingWork(None, false);
    assert IsBindingWork(w);
    assert BindingRequests(w)[..0] + [Refused(false)] == [Refused(false)];
    assert BindingRequests(w)[..1] + [Refused(false)] == [Read, Refused(false)];
    assert BindingRequests(w)[..2] + [Refused(false)] == [Read, Read, Refused(false)];
  }

  /** The log after the binding is written, and after a stale instance is deleted. */
  lemma WriteLogged(policy: Option<Pk>, target: Option<Pk>, request: Event)
    ensures BindingRequests(BindingWork(Some(request), false)) == [Read, Read, Read] + [request]
    ensures request == Refused(true) ==> BindingFailed(policy, target, [Read, Read, Read] + [request], RequestFailed)
    ensures Mutating(request) ==> !Quiet([Read, Read, Read] + [request])
    ensures Touched(request) == Some(NAVIDROME) ==>
      ActionsFor([Read, Read, Read] + [request], NAVIDROME) == ActionOf(request)
  {
    var events := [Read, Read, Read] + [request];
    ActionsConcat([Read, Read, Read], [request], NAVIDROME);
    OneAction(request, NAVIDROME);
    NoActions([Read, Read, Read], NAVIDROME);
    assert events[3] == request;
    var w := BindingWork(Some(BindingPatched), false);
    assert IsBindingWork(w) && BindingRequests(w)[..3] + [request] == events;
  }

  lemma DeleteLogged(policy: Option<Pk>, target: Option<Pk>, write: Option<Event>, request: Event)
    requires IsBindingWork(BindingWork(write, false))
    ensures var events := BindingRequests(BindingWork(write, false)) + [request];
      && (request == Deleted(NAVIDROME) ==> BindingWent(events))
      && (request == Refused(true) ==> BindingFailed(policy, target, events, RequestFailed))
      && (Mutating(request) ==> !Quiet(events))
      && (request == Deleted(NAVIDROME) ==>
            ActionsFor(events, NAVIDROME) ==
              ActionsFor(BindingRequests(BindingWork(write, false)), NAVIDROME) + [DeletedStale])
  {
    var before := BindingRequests(BindingWork(write, false));
    ActionsConcat(before, [request], NAVIDROME);
    OneAction(request, NAVIDROME);
    var events, w := before + [request], BindingWork(write, true);
    assert events[|before|] == request;
    assert IsBindingWork(w) && BindingRequests(w) == before + [Deleted(NAVIDROME)];
    assert BindingRequests(w)[..|before|] == before;
  }

  lemma ReadsLogged()
    ensures BindingRequests(BindingWork(None, false)) == [Read, Read, Read] && Quiet([Read, Read, Read])
    ensures ActionsFor([Read, Read, Read], NAVIDROME) == []
  {
    NoActions([Read, Read, Read], NAVIDROME);
  }

  /** `ensure_navidrome_password_change_sync_binding`: what it did, if anything. */
  method EnsureBinding(server: Server)
    returns (r: Result<seq<Action>, Failure>, ghost events: seq<Event>, ghost write: Option<Event>)
    requires WellKeyed(server.table)
    modifies server`table, server`bindings, server`log, server`now
    ensures server.log == old(server.log) + events
    ensures r.Err? ==> BindingFailed(server.policy, server.target, events, r.error) && !r.error.MissingInstances?
    ensures ServerBindingInPlace(server, old(server.bindings)) ==> Quiet(events)
    ensures Quiet(events) ==> server.bindings == old(server.bindings)
    ensures r.Ok? ==>
      && SameIdentity(old(server.table), server.table) && WellKeyed(server.table)
      && ServerBindingInPlace(server, server.bindings)
      && IsBindingWork(BindingWork(write, false)) && events == BindingRequests(BindingWork(write, false))
      && (r.value == [] <==> ServerBindingInPlace(server, old(server.bindings)))
      && (r.value == [] <==> Quiet(events)) && r.value == ActionsFor(events, NAVIDROME)
  {
    hide BindingInPlace, BoundAsWanted, BindingFailed, BindingRequests, Quiet, ActionsFor;
    write := None;
    ReadsLogged();
    var found, looked := FindBindings(server);
    events := looked;
    if found.Err? {
      LookedInVain(server.policy, server.target, events, found.error);
      return Err(found.error), events, write;
    }
    var (policy, target) := found.value;
    InPlaceIsWanted(server.bindings, policy, target);
    if BindingInPlace(server.bindings, policy, target) {
      return Ok([]), events, write;
    }
    var written, request := WriteBinding(server, policy, target);
    InPlaceIsWanted(server.bindings, policy, target);
    WriteLogged(server.policy, server.target, request);
    events, write := looked + [request], Some(request);
    return if written.Err? then Err(written.error) else Ok([written.value]), events, write;
  }

  lemma LookedInVain(policy: Option<Pk>, target: Option<Pk>, events: seq<Event>, error: Failure)
    requires BindingFailed(policy, target, events, error)
    ensures !error.MissingInstances?
  {
  }

  lemma AgreementAfterDelete(before: Table, after: Table, byName: Index, byPath: Index, stale: Instance)
    requires Agreement(before, byName, byPath) && WellKeyed(after)
    requires stale.pk in before && Identity(before[stale.pk]) == Identity(stale) && stale.name != ""
    requires after.Keys == before.Keys - {stale.pk}
    requires forall k | k in after :: Identity(after[k]) == Identity(before[k])
    ensures Agreement(after, byName - {stale.name}, if stale.path != "" then byPath - {stale.path} else byPath)
    ensures forall k | k in after :: after[k].name != stale.name
    ensures DropsOnlyMoved(before, after, byPath, if stale.path != "" then byPath - {stale.path} else byPath)
  {
    assert before[stale.pk].path == stale.path;
    forall a, b | a in after && b in after && a != b
      ensures after[a].name != after[b].name
    {
      assert Identity(after[a]) == Identity(before[a]) && Identity(after[b]) == Identity(before[b]);
    }
    forall n | n in byName && n != "" && n != stale.name
      ensures byName[n].pk in after && Identity(after[byName[n].pk]) == Identity(byName[n])
    {
      assert byName[n].pk != stale.pk;
    }
    forall p | p in byPath && p != stale.path
      ensures byPath[p].pk in after && Identity(after[byPath[p].pk]) == Identity(byPath[p])
    {
      assert byPath[p].pk != stale.pk;
    }
  }

  lemma AgreementSurvives(before: Table, after: Table, byName: Index, byPath: Index)
    requires Agreement(before, byName, byPath) && SameIdentity(before, after) && WellKeyed(after)
    ensures Agreement(after, byName, byPath)
  {
    forall a, b | a in after && b in after && a != b
      ensures after[a].name != after[b].name
    {
      assert Identity(after[a]) == Identity(before[a]) && Identity(after[b]) == Identity(before[b]);
    }
  }

  datatype Bound = Bound(actions: seq<Action>, byName: Index, byPath: Index)

  /** Delete the instance that still has the name of the binding step. */
  method DeleteStale(server: Server, byName: Index, byPath: Index)
    returns (r: Result<(Index, Index), Failure>, ghost request: Event)
    requires Agreement(server.table, byName, byPath) && NAVIDROME in byName
    modifies server`table, server`log, server`now
    ensures server.log == old(server.log) + [request]
    ensures r.Err? ==> r.error == RequestFailed && request == Refused(true)
    ensures r.Ok? ==>
      && Agreement(server.table, r.value.0, r.value.1) && request == Deleted(NAVIDROME)
      && r.value.0 == byName - {NAVIDROME} && DropsOnlyMoved(old(server.table), server.table, byPath, r.value.1)
      && WithoutName(old(server.table), server.table, NAVIDROME)
  {
    hide PathIndex, UniqueNames, DropsOnlyMoved;
    var stale := byName[NAVIDROME];
    var deleted := server.DeleteInstance(stale.pk);
    request := if deleted.Err? then Refused(true) else Deleted(NAVIDROME);
    if deleted.Err? {
      return Err(deleted.error), request;
    }
    AgreementAfterDelete(old(server.table), server.table, byName, byPath, stale);
    OnlyNamesakeGone(old(server.table), server.table, stale);
    return Ok((byName - {NAVIDROME}, if stale.path != "" then byPath - {stale.path} else byPath)), request;
  }

  /** Nobody has the name any more, and nobody else is gone, new, renamed or repointed. */
  ghost predicate WithoutName(before: Table, after: Table, name: string) {
    && (forall k | k in after :: k in before && after[k].name != name && Identity(after[k]) == Identity(before[k]))
    && (forall k | k in before && before[k].name != name :: k in after)
  }

  lemma OnlyNamesakeGone(before: Table, after: Table, stale: Instance)
    requires stale.pk in before && Identity(before[stale.pk]) == Identity(stale)
    requires after.Keys == before.Keys - {stale.pk}
    requires forall k | k in after :: Identity(after[k]) == Identity(before[k]) && after[k].name != stale.name
    ensures WithoutName(before, after, stale.name)
  {
  }

  lemma WithoutNameAlready(before: Table, after: Table, byName: Index, name: string)
    requires SameIdentity(before, after) && NameIndex(byName, before) && name !in byName && name != ""
    ensures WithoutName(before, after, name)
  {
    assert forall k | k in after :: Identity(after[k]) == Identity(before[k]);
  }

  lemma DropsOnlyMovedLater(before: Table, middle: Table, after: Table, byPath: Index, next: Index)
    requires SameIdentity(before, middle) && DropsOnlyMoved(middle, after, byPath, next)
    ensures DropsOnlyMoved(before, after, byPath, next)
  {
    assert forall k | k in middle :: Identity(middle[k]) == Identity(before[k]);
  }

  lemma NothingDropped(before: Table, after: Table, byPath: Index)
    ensures DropsOnlyMoved(before, after, byPath, byPath)
  {
  }

  lemma WithoutNameLater(before: Table, middle: Table, after: Table, name: string)
    requires SameIdentity(before, middle) && WithoutName(middle, after, name)
    ensures WithoutName(before, after, name)
  {
    assert forall k | k in middle :: Identity(middle[k]) == Identity(before[k]);
  }

  method ReconcileBinding(server: Server, byName: Index, byPath: Index)
    returns (r: Result<Bound, Failure>, ghost events: seq<Event>)
    requires Agreement(server.table, byName, byPath)
    modifies server`table, server`bindings, server`log, server`now
    ensures server.log == old(server.log) + events
    // The requests are those of a binding step that goes well, or fails with the error.
    ensures r.Ok? ==> BindingWent(events)
    ensures r.Err? ==> BindingFailed(server.policy, server.target, events, r.error) && !r.error.MissingInstances?
    ensures ServerBindingInPlace(server, old(server.bindings)) && NAVIDROME !in byName ==> Quiet(events)
    ensures r.Ok? ==> var bound := r.value;
      && Agreement(server.table, bound.byName, bound.byPath)
      && WithoutName(old(server.table), server.table, NAVIDROME)
      && ServerBindingInPlace(server, server.bindings)
      && (bound.actions == [] <==> ServerBindingInPlace(server, old(server.bindings)) && NAVIDROME !in byName)
      && (bound.actions == [] <==> Quiet(events)) && bound.actions == ActionsFor(events, NAVIDROME)
      && DropsOnlyMoved(old(server.table), server.table, byPath, bound.byPath)
      && (bound.actions == [] ==> bound.byName == byName && server.bindings == old(server.bindings))
      && (forall n | n in bound.byName :: n in byName && bound.byName[n] == byName[n])
  {
    hide ServerBindingInPlace, SameIdentity, PathIndex, UniqueNames, WithoutName, Identity, IsListing,
      BindingFailed, BindingRequests, Quiet, IsBindingWork, ActionsFor, DropsOnlyMoved;
    var ensured, requests, write := EnsureBinding(server);
    events := requests;
    if ensured.Err? {
      return Err(ensured.error), events;
    }
    AgreementSurvives(old(server.table), server.table, byName, byPath);
    var actions := ensured.value;
    if NAVIDROME !in byName {
      NothingDropped(old(server.table), server.table, byPath);
      WithoutNameAlready(old(server.table), server.table, byName, NAVIDROME);
      return Ok(Bound(actions, byName, byPath)), events;
    }
    ghost var middle := server.table;
    var deleted, request := DeleteStale(server, byName, byPath);
    DeleteLogged(server.policy, server.target, write, request);
    events := requests + [request];
    if deleted.Err? {
      return Err(deleted.error), events;
    }
    WithoutNameLater(old(server.table), middle, server.table, NAVIDROME);
    DropsOnlyMovedLater(old(server.table), middle, server.table, byPath, deleted.value.1);
    return Ok(Bound(actions + [DeletedStale], deleted.value.0, deleted.value.1)), events;
  }

  // ----- What a finished step leaves behind -----

  /** Whoever has the step's name has its path and is enabled; nobody has the name of the
      binding step. */
  ghost predicate Settled(table: Table, step: Step, available: seq<Available>) {
    if IsBlueprint(step) then
      MatchOf(available, step.relative).Some? && forall pk | pk in table && table[pk].name == step.name ::
        table[pk].path == MatchOf(available, step.relative).value.path && table[pk].enabled
    else
      forall pk | pk in table :: table[pk].name != step.name
  }

  lemma SettledStays(before: Table, after: Table, pk: Pk, name: string, path: string, step: Step,
      available: seq<Available>)
    requires Settled(before, step, available) && StepEffect(before, after, pk, name, path) && step.name != name
    ensures Settled(after, step, available)
  {
    forall k | k in after && after[k].name == step.name
      ensures k in before && Identity(after[k]) == Identity(before[k])
    {
    }
  }

  /** The instance the step reconciled still is the step's instance. */
  ghost predicate Kept(table: Table, step: Step, available: seq<Available>, owner: Pk) {
    IsBlueprint(step) ==>
      && MatchOf(available, step.relative).Some? && owner in table
      && Identity(table[owner]) == (owner, step.name, MatchOf(available, step.relative).value.path, true)
  }

  // ----- When a step asks for nothing -----

  ghost predicate StepInPlace(table: Table, bindings: seq<Binding>, server: Server, step: Step) {
    if IsBlueprint(step) then
      var blueprint := MatchOf(server.available, step.relative);
      blueprint.Some? && exists pk | pk in table :: InPlace(table[pk], step.name, blueprint.value)
    else
      (forall pk | pk in table :: table[pk].name != step.name) && ServerBindingInPlace(server, bindings)
  }

  ghost predicate PlanInPlace(table: Table, bindings: seq<Binding>, server: Server, plan: Plan, k: int)
    requires k <= |plan|
  {
    forall j | 0 <= j < k :: StepInPlace(table, bindings, server, plan[j])
  }

  /** The step's goal on the server: what `StepInPlace` asks, but for a hash that is not known. */
  ghost predicate StepReached(table: Table, bindings: seq<Binding>, server: Server, step: Step) {
    if IsBlueprint(step) then
      var blueprint := MatchOf(server.available, step.relative);
      blueprint.Some? && exists pk | pk in table :: AsWanted(table[pk], step.name, blueprint.value)
    else
      (forall pk | pk in table :: table[pk].name != step.name) && ServerBindingInPlace(server, bindings)
  }

  /** The cache built from the first listing says whether the step asks for nothing. */
  lemma CachedInPlaceIff(table: Table, byName: Index, step: Step, blueprint: Available)
    requires UniqueNames(table) && WellKeyed(table) && step.name != ""
    requires forall n | n in byName :: byName[n].name == n && byName[n].pk in table && table[byName[n].pk] == byName[n]
    requires forall pk | pk in table :: table[pk].name in byName && byName[table[pk].name] == table[pk]
    ensures CachedInPlace(byName, step.name, blueprint)
      <==> exists pk | pk in table :: InPlace(table[pk], step.name, blueprint)
  {
    if CachedInPlace(byName, step.name, blueprint) {
      assert InPlace(table[byName[step.name].pk], step.name, blueprint);
    }
  }

  // ----- The final verification -----

  /** The records bear the complaint out. */
  ghost predicate Faulty(records: seq<Instance>, names: set<string>, expected: map<string, string>, failure: Failure) {
    match failure
    case MissingInstances(missing) =>
      missing != {} && forall n :: n in missing <==> n in names && forall i | 0 <= i < |records| :: records[i].name != n
    case ApplyFailed(name, e, o) =>
      exists i | 0 <= i < |records| :: records[i].name == name && records[i].status == Error && records[i].lastHash == o
        && name in names && name in expected && e == Some(expected[name])
    case WrongHash(name, e, o) =>
      exists i | 0 <= i < |records| :: records[i].name == name && records[i].status == Successful
        && records[i].lastHash == o != e && name in names && name in expected && e == Some(expected[name])
    case NotAllSuccessful =>
      exists i | 0 <= i < |records| :: records[i].name in names && records[i].status != Successful
    case _ => false
  }

  method VerifyFinal(records: seq<Instance>, names: set<string>, expected: map<string, string>)
    returns (failure: Option<Failure>)
    ensures failure.None? <==>
      && (forall n | n in names :: exists i | 0 <= i < |records| :: records[i].name == n)
      && (forall i | 0 <= i < |records| && records[i].name in names ::
            records[i].status == Successful
            && (records[i].name in expected ==> records[i].lastHash == Some(expected[records[i].name])))
    // Every complaint is true.
    ensures failure.Some? ==> Faulty(records, names, expected, failure.value)
  {
    var found := set i | 0 <= i < |records| :: records[i].name;
    var missing := names - found;
    if missing != {} {
      assert forall i | 0 <= i < |records| :: records[i].name in found;
      return Some(MissingInstances(missing));
    }
    for i := 0 to |records|
      invariant forall k | 0 <= k < i && records[k].name in names && records[k].name in expected ::
        records[k].status != Error
        && (records[k].status == Successful ==> records[k].lastHash == Some(expected[records[k].name]))
    {
      var item := records[i];
      if item.name in names && item.name in expected {
        var hash := Some(expected[item.name]);
        if item.status == Error {
          return Some(ApplyFailed(item.name, hash, item.lastHash));
        }
        if item.status == Successful && item.lastHash != hash {
          return Some(WrongHash(item.name, hash, item.lastHash));
        }
      }
    }
    if exists i | 0 <= i < |records| :: records[i].name in names && records[i].status != Successful {
      return Some(NotAllSuccessful);
    }
    forall n | n in names
      ensures exists i | 0 <= i < |records| :: records[i].name == n
    {
      assert n !in missing && n in found;
    }
    return None;
  }

  // ----- One step of either kind -----

  datatype StepDone = StepDone(report: Report, byName: Index, byPath: Index, hash: Option<string>, owner: Pk)

  ghost predicate NeedsNothing(byName: Index, bindings: seq<Binding>, server: Server, step: Step) {
    if IsBlueprint(step) then
      MatchOf(server.available, step.relative).Some?
      && CachedInPlace(byName, step.name, MatchOf(server.available, step.relative).value)
    else
      NAVIDROME !in byName && ServerBindingInPlace(server, bindings)
  }

  /** What a finished step has done to the table. */
  ghost predicate Moved(before: Table, after: Table, available: seq<Available>, step: Step, owner: Pk) {
    if IsBlueprint(step) then
      MatchOf(available, step.relative).Some?
      && StepEffect(before, after, owner, step.name, MatchOf(available, step.relative).value.path)
    else
      WithoutName(before, after, step.name)
  }

  /** The file a step stands for, as its report gives it. */
  ghost function PathOf(available: seq<Available>, step: Step): string {
    if IsBlueprint(step) && MatchOf(available, step.relative).Some? then MatchOf(available, step.relative).value.path
    else step.relative
  }

  /** What the step asks of the server is right for the table it finds. */
  ghost predicate RequestsFit(events: seq<Event>, before: Table, byPath: Index, step: Step, available: seq<Available>) {
    if IsBlueprint(step) && MatchOf(available, step.relative).Some? then
      RightRequests(events, before, byPath, step.name, MatchOf(available, step.relative).value.path)
    else
      forall e | e in events :: !e.Created? && !e.Patched?
  }

  lemma BindingCreatesNothing(events: seq<Event>, policy: Option<Pk>, target: Option<Pk>, error: Failure)
    requires BindingWent(events) || BindingFailed(policy, target, events, error)
    ensures forall e | e in events :: !e.Created? && !e.Patched?
  {
    hide BindingRequests, IsBindingWork;
    if w :| IsBindingWork(w) && events == BindingRequests(w) {
      RequestsOfBinding(w);
    } else if error.RequestFailed? {
      var w, n :| IsBindingWork(w) && 0 <= n < |BindingRequests(w)|
        && events == BindingRequests(w)[..n] + [Refused(n >= 3)];
      RequestsOfBinding(w);
    }
  }

  method RunStep(server: Server, step: Step, byName: Index, byPath: Index, ghost records: seq<Instance>)
    returns (r: Result<StepDone, Failure>, ghost events: seq<Event>)
    requires Agreement(server.table, byName, byPath) && step.name != "" && step.relative != ""
    requires step.name in byName ==> byName[step.name] in records
    modifies server`table, server`bindings, server`log, server`now
    ensures server.log == old(server.log) + events
    ensures r.Ok? ==> StepWent(records, server, step, events)
    ensures r.Err? ==> StepFailed(records, server, step, events, r.error)
    ensures NeedsNothing(byName, old(server.bindings), server, step) ==> Quiet(events)
    ensures r.Err? ==> !r.error.MissingInstances?
    ensures RequestsFit(events, old(server.table), byPath, step, server.available)
    ensures r.Ok? ==> var done := r.value;
      && Agreement(server.table, done.byName, done.byPath)
      && DropsOnlyMoved(old(server.table), server.table, byPath, done.byPath)
      && (IsBlueprint(step) ==> PathOf(server.available, step) in done.byPath)
      && Moved(old(server.table), server.table, server.available, step, done.owner)
      // The report is true of the step and of its requests.
      && done.report
         == Report(step.name, PathOf(server.available, step), Successful, ActionsFor(events, step.name))
      && (done.report.actions == [] <==> NeedsNothing(byName, old(server.bindings), server, step))
      && (done.report.actions == [] <==> Quiet(events))
      && (done.report.actions == [] ==> done.byName == byName && server.bindings == old(server.bindings))
      && (forall n | n in done.byName && n != step.name :: n in byName && done.byName[n] == byName[n])
      && (IsBlueprint(step) ==>
            && MatchOf(server.available, step.relative).Some? && server.bindings == old(server.bindings)
            && done.hash == MatchOf(server.available, step.relative).value.hash)
      && (!IsBlueprint(step) ==> ServerBindingInPlace(server, server.bindings) && done.hash.None?)
  {
    hide BlueprintWent, BlueprintFailed, BindingWent, BindingFailed, RightRequests, DropsOnlyMoved, ActionsFor, Quiet,
      Agreement, StepEffect, WithoutName;
    if step.name == NAVIDROME {
      var bound, requests := ReconcileBinding(server, byName, byPath);
      events := requests;
      BindingCreatesNothing(events, server.policy, server.target, if bound.Err? then bound.error else RequestFailed);
      if bound.Err? {
        return Err(bound.error), events;
      }
      var Bound(actions, names, paths) := bound.value;
      return Ok(StepDone(Report(step.name, step.relative, Successful, actions), names, paths, None, 0)), events;
    }
    events := [];
    var found := FindMatch(server.available, step.relative);
    if found.None? {
      return Err(NotOneBlueprint(step.relative)), events;
    }
    var blueprint := found.value;
    var done, requests := ReconcileBlueprint(server, step.name, blueprint, byName, byPath, records);
    events := requests;
    if done.Err? {
      return Err(done.error), events;
    }
    var Done(instance, actions, names, paths) := done.value;
    r := Ok(StepDone(
      Report(instance.name, instance.path, instance.status, actions), names, paths, blueprint.hash, instance.pk));
  }
}
