/** One blueprint step of `reconcile_blueprint_instances` in scripts/authentik_blueprint_sync.py:
    making sure of the instance, applying it and waiting for it, with the two caches of the
    server kept in step. */
module BlueprintReconcile {
  import opened Results
  import opened BlueprintServer
  import opened BlueprintLog

  type Index = map<string, Instance>

  // ----- The two caches -----

  /** `byName` is the server's own index by name. The empty name is left out of account: the
      program takes it for no name when it drops old entries. */
  ghost predicate NameIndex(byName: Index, table: Table) {
    && (forall n | n in byName && n != "" ::
          byName[n].pk in table && byName[n].name == n && Identity(table[byName[n].pk]) == Identity(byName[n]))
    && (forall pk | pk in table && table[pk].name != "" :: table[pk].name in byName && byName[table[pk].name].pk == pk)
  }

  /** Every entry of `byPath` is a live instance that has this path now. */
  ghost predicate PathIndex(byPath: Index, table: Table) {
    forall p | p in byPath ::
      p != "" && byPath[p].pk in table && byPath[p].path == p && Identity(table[byPath[p].pk]) == Identity(byPath[p])
  }

  ghost predicate Agreement(table: Table, byName: Index, byPath: Index) {
    WellKeyed(table) && UniqueNames(table) && NameIndex(byName, table) && PathIndex(byPath, table)
  }

  ghost predicate PathCached(byPath: Index, table: Table, path: string) {
    (exists k | k in table :: table[k].path == path) ==> path in byPath
  }

  /** Of the records with this record's path it is the last. */
  ghost predicate LastOfPath(records: seq<Instance>, record: Instance) {
    exists k | 0 <= k < |records| && records[k] == record ::
      forall l | k < l < |records| :: records[l].path != record.path
  }

  lemma LastOfPathAfter(records: seq<Instance>, i: nat, byPath: Index)
    requires i < |records| && forall p | p in byPath :: byPath[p].path == p && LastOfPath(records[..i], byPath[p])
    ensures LastOfPath(records[..i + 1], records[i])
    ensures forall p | p in byPath && p != records[i].path :: LastOfPath(records[..i + 1], byPath[p])
  {
    assert records[..i + 1][i] == records[i];
    forall p | p in byPath && p != records[i].path
      ensures LastOfPath(records[..i + 1], byPath[p])
    {
      var k :| 0 <= k < i && records[..i][k] == byPath[p] && forall l | k < l < i :: records[..i][l].path != p;
      assert records[..i + 1][k] == byPath[p];
      assert forall l | k < l < i :: records[..i + 1][l] == records[..i][l];
    }
  }

  /** The first `i` records are in the caches, and nothing else is. */
  ghost predicate Indexed(records: seq<Instance>, i: nat, byName: Index, byPath: Index)
    requires i <= |records|
  {
    && (forall n | n in byName :: byName[n] in records && byName[n].name == n)
    && (forall p | p in byPath :: p != "" && byPath[p] in records && byPath[p].path == p)
    && (forall p | p in byPath :: LastOfPath(records[..i], byPath[p]))
    && (forall k | 0 <= k < i && records[k].path != "" :: records[k].path in byPath)
    && (forall k | 0 <= k < i :: records[k].name in byName && byName[records[k].name] == records[k])
  }

  lemma IndexedAfter(records: seq<Instance>, table: Table, i: nat, byName: Index, byPath: Index)
    requires UniqueNames(table) && IsListing(records, table) && i < |records| && Indexed(records, i, byName, byPath)
    ensures var item := records[i];
      Indexed(records, i + 1, byName[item.name := item],
        if item.path != "" then byPath[item.path := item] else byPath)
  {
    hide LastOfPath;
    var item := records[i];
    assert item in records;
    forall k | 0 <= k < i && records[k].name == item.name
      ensures records[k] == item
    {
      assert records[k] in records;
    }
    LastOfPathAfter(records, i, byPath);
  }

  lemma IndexedAll(records: seq<Instance>, table: Table, byName: Index, byPath: Index)
    requires WellKeyed(table) && UniqueNames(table) && IsListing(records, table)
    requires Indexed(records, |records|, byName, byPath)
    ensures Agreement(table, byName, byPath)
    ensures forall n | n in byName :: byName[n] in records && byName[n].name == n
    ensures forall pk | pk in table :: table[pk].name in byName && byName[table[pk].name] == table[pk]
    ensures forall p | p != "" :: PathCached(byPath, table, p)
    ensures forall p | p in byPath :: LastOfPath(records, byPath[p])
  {
    hide LastOfPath;
    assert records[..|records|] == records;
    forall pk | pk in table
      ensures table[pk].name in byName && byName[table[pk].name] == table[pk]
      ensures table[pk].path != "" ==> table[pk].path in byPath
    {
      var k :| 0 <= k < |records| && records[k] == table[pk];
    }
  }

  method BuildIndexes(records: seq<Instance>, ghost table: Table) returns (byName: Index, byPath: Index)
    requires WellKeyed(table) && UniqueNames(table) && IsListing(records, table)
    ensures Agreement(table, byName, byPath)
    ensures forall n | n in byName :: byName[n] in records && byName[n].name == n
    ensures forall pk | pk in table :: table[pk].name in byName && byName[table[pk].name] == table[pk]
    // Every path of the server is cached, and of two records with one path the later counts.
    ensures forall p | p != "" :: PathCached(byPath, table, p)
    ensures forall p | p in byPath :: LastOfPath(records, byPath[p])
  {
    byName, byPath := map[], map[];
    for i := 0 to |records|
      invariant Indexed(records, i, byName, byPath)
    {
      hide Indexed;
      var item := records[i];
      IndexedAfter(records, table, i, byName, byPath);
      byName := byName[item.name := item];
      if item.path != "" {
        byPath := byPath[item.path := item];
      }
    }
    IndexedAll(records, table, byName, byPath);
  }

  /** The caches after a step that ended with `instance`, found as `previous` if it was there. */
  function NamesAfter(byName: Index, previous: Option<Instance>, instance: Instance): Index {
    var kept := if previous.Some? && previous.value.name != "" && previous.value.name != instance.name
                then byName - {previous.value.name} else byName;
    kept[instance.name := instance]
  }

  function PathsAfter(byPath: Index, previous: Option<Instance>, instance: Instance): Index {
    var kept := if previous.Some? && previous.value.path != "" && previous.value.path != instance.path
                then byPath - {previous.value.path} else byPath;
    kept[instance.path := instance]
  }

  /** What one step does to the server's table: instance `pk` now carries this name and path,
      and is either new, or had the name, or had the path while nobody had the name. Nothing
      else is renamed, repointed, created or deleted. */
  ghost predicate StepEffect(before: Table, after: Table, pk: Pk, name: string, path: string) {
    && pk in after && Identity(after[pk]) == (pk, name, path, true)
    && after.Keys == before.Keys + {pk}
    && (forall k | k in before && k != pk :: Identity(after[k]) == Identity(before[k]))
    && ((pk in before && before[pk].name == name)
        || ((pk in before ==> before[pk].path == path) && forall k | k in before :: before[k].name != name))
  }

  /** A request that makes sure of the instance is right: a new one comes only if nobody has the
      name; a patch corrects the one that has the name, or the path while nobody has the name. */
  ghost predicate RightRequest(e: Event, before: Table, name: string, path: string) {
    match e
    case Created(record) =>
      && Identity(record) == (record.pk, name, path, true) && record.pk !in before
      && forall k | k in before :: before[k].name != name
    case Patched(record) =>
      && Identity(record) == (record.pk, name, path, true) && record.pk in before
      && Identity(before[record.pk]) != Identity(record)
      && (before[record.pk].name == name
          || (before[record.pk].path == path && forall k | k in before :: before[k].name != name))
    case _ => true
  }

  /** If it creates an instance, nobody has the path either. */
  ghost predicate OnlyIfMissing(e: Event, before: Table, path: string) {
    e.Created? ==> forall k | k in before :: before[k].path != path
  }

  ghost predicate RightRequests(events: seq<Event>, before: Table, byPath: Index, name: string, path: string) {
    forall e | e in events ::
      RightRequest(e, before, name, path) && (PathCached(byPath, before, path) ==> OnlyIfMissing(e, before, path))
  }

  lemma OthersAreRight(ensured: seq<Event>, events: seq<Event>, before: Table, byPath: Index, name: string,
      path: string)
    requires RightRequests(ensured, before, byPath, name, path)
    requires forall e | e in events && (e.Created? || e.Patched?) :: e in ensured
    ensures RightRequests(events, before, byPath, name, path)
  {
  }

  /** A path is dropped from the cache only if an instance that had it is gone or repointed. */
  ghost predicate DropsOnlyMoved(before: Table, after: Table, byPath: Index, next: Index) {
    forall p | p in byPath && p !in next :: exists k | k in before && before[k].path == p ::
      k !in after || after[k].path != p
  }

  lemma PathsDropped(before: Table, after: Table, byPath: Index, previous: Option<Instance>, instance: Instance)
    requires StepEffect(before, after, instance.pk, instance.name, instance.path)
    requires previous.Some? ==> instance.pk in before && Identity(before[instance.pk]) == Identity(previous.value)
    ensures DropsOnlyMoved(before, after, byPath, PathsAfter(byPath, previous, instance))
    ensures instance.path in PathsAfter(byPath, previous, instance)
  {
    forall p | p in byPath && p !in PathsAfter(byPath, previous, instance)
      ensures exists k | k in before && before[k].path == p :: k !in after || after[k].path != p
    {
      assert before[instance.pk].path == p;
    }
  }

  /** A step that repoints an instance forgets its old path, and so loses sight of others that
      have that path, too: of the other paths, all that somebody has stay cached exactly if the
      old path had no other instance. */
  lemma PathStaysCachedIff(before: Table, after: Table, byPath: Index, previous: Option<Instance>, instance: Instance,
      path: string)
    requires StepEffect(before, after, instance.pk, instance.name, instance.path)
    requires previous.Some? <==> instance.pk in before
    requires previous.Some? ==> Identity(before[instance.pk]) == Identity(previous.value)
    requires path != "" && path != instance.path && PathCached(byPath, before, path)
    ensures PathCached(PathsAfter(byPath, previous, instance), after, path) <==>
      !(previous.Some? && previous.value.path == path
        && exists k | k in before && k != instance.pk :: before[k].path == path)
  {
    assert forall k | k in before && k != instance.pk :: k in after && after[k].path == before[k].path;
    assert forall k | k in after && k != instance.pk :: k in before && after[k].path == before[k].path;
  }

  const SECOND := Instance(1, "groups", "r", true, Successful, None, None)

  const TWIN := Instance(2, "x", "r", true, Successful, None, None)

  /** Two instances with one path: the step for "groups" corrects the path of the first, and the
      second, whose path some later step may look for, is no longer found. */
  lemma TwinIsForgotten()
    ensures var before, byPath := map[1 := SECOND, 2 := TWIN], map["r" := SECOND];
      var fixed := SECOND.(path := "g");
      && Agreement(before, map["groups" := SECOND, "x" := TWIN], byPath)
      && (forall p | p != "" :: PathCached(byPath, before, p))
      && StepEffect(before, before[1 := fixed], 1, "groups", "g")
      && !PathCached(PathsAfter(byPath, Some(SECOND), fixed), before[1 := fixed], "r")
  {
    var before: Table, fixed := map[1 := SECOND, 2 := TWIN], SECOND.(path := "g");
    assert |"groups"| != |"x"|;
    var after: Table := before[1 := fixed];
    assert after[2].path == "r";
  }

  lemma EffectKeepsUniqueNames(before: Table, after: Table, pk: Pk, name: string, path: string)
    requires UniqueNames(before) && StepEffect(before, after, pk, name, path)
    ensures UniqueNames(after)
  {
    forall a, b | a in after && b in after && a != b
      ensures after[a].name != after[b].name
    {
      var other := if a == pk then b else a;
      assert other in before && Identity(after[other]) == Identity(before[other]);
      if a != pk && b != pk {
        assert Identity(after[b]) == Identity(before[b]);
      }
    }
  }

  /** An instance that carries another name and another path than this step's is left alone. */
  lemma EffectSparesOthers(before: Table, after: Table, pk: Pk, name: string, path: string, other: Pk)
    requires StepEffect(before, after, pk, name, path)
    requires other in before && before[other].name != name && before[other].path != path
    ensures other in after && Identity(after[other]) == Identity(before[other])
  {
  }

  lemma NamesAgreeAfter(before: Table, after: Table, byName: Index, previous: Option<Instance>, instance: Instance)
    requires NameIndex(byName, before) && UniqueNames(before)
    requires StepEffect(before, after, instance.pk, instance.name, instance.path) && UniqueNames(after)
    requires instance.name != "" && instance.enabled
    requires previous.Some? <==> instance.pk in before
    requires previous.Some? ==> Identity(before[instance.pk]) == Identity(previous.value)
    ensures NameIndex(NamesAfter(byName, previous, instance), after)
  {
    var names := NamesAfter(byName, previous, instance);
    forall n | n in names && n != ""
      ensures names[n].pk in after && names[n].name == n && Identity(after[names[n].pk]) == Identity(names[n])
    {
      if n != instance.name {
        assert n in byName && names[n] == byName[n];
        assert byName[n].pk != instance.pk;
        assert Identity(after[byName[n].pk]) == Identity(before[byName[n].pk]);
      }
    }
    forall pk | pk in after && after[pk].name != ""
      ensures after[pk].name in names && names[after[pk].name].pk == pk
    {
      if pk != instance.pk {
        assert Identity(after[pk]) == Identity(before[pk]);
        assert after[pk].name != instance.name;
        assert byName[before[pk].name].pk == pk;
        if previous.Some? {
          assert previous.value.name != before[pk].name;
        }
      }
    }
  }

  lemma PathsAgreeAfter(before: Table, after: Table, byPath: Index, previous: Option<Instance>, instance: Instance)
    requires PathIndex(byPath, before)
    requires StepEffect(before, after, instance.pk, instance.name, instance.path)
    requires instance.path != "" && instance.enabled
    requires previous.Some? <==> instance.pk in before
    requires previous.Some? ==> Identity(before[instance.pk]) == Identity(previous.value)
    ensures PathIndex(PathsAfter(byPath, previous, instance), after)
  {
    var paths := PathsAfter(byPath, previous, instance);
    forall p | p in paths
      ensures p != "" && paths[p].pk in after && paths[p].path == p
        && Identity(after[paths[p].pk]) == Identity(paths[p])
    {
      if p != instance.path {
        assert p in byPath && paths[p] == byPath[p];
        assert byPath[p].pk != instance.pk;
        assert Identity(after[byPath[p].pk]) == Identity(before[byPath[p].pk]);
      }
    }
  }

  lemma AgreementAfter(
    before: Table, after: Table, byName: Index, byPath: Index, previous: Option<Instance>, instance: Instance)
    requires Agreement(before, byName, byPath) && WellKeyed(after)
    requires StepEffect(before, after, instance.pk, instance.name, instance.path) && instance.name != ""
      && instance.path != "" && instance.enabled
    requires previous.Some? <==> instance.pk in before
    requires previous.Some? ==> Identity(before[instance.pk]) == Identity(previous.value)
    ensures Agreement(after, NamesAfter(byName, previous, instance), PathsAfter(byPath, previous, instance))
  {
    hide StepEffect, NameIndex, PathIndex, UniqueNames, NamesAfter, PathsAfter;
    EffectKeepsUniqueNames(before, after, instance.pk, instance.name, instance.path);
    NamesAgreeAfter(before, after, byName, previous, instance);
    PathsAgreeAfter(before, after, byPath, previous, instance);
  }

  // ----- One wait -----

  /** What an answer settles, if anything. */
  function Verdict(instance: Instance, previousApplied: Option<int>, expected: Option<string>)
    : (r: Option<Result<Instance, Failure>>)
    ensures r.None? <==> Pending(Got(instance), instance.pk, previousApplied)
    ensures r.Some? ==> Settles(instance, previousApplied, expected, r.value)
  {
    if instance.status == Error then
      Some(Err(ApplyFailed(instance.name, expected, instance.lastHash)))
    else if instance.status == Successful && instance.lastApplied != previousApplied then
      Some(if expected.Some? && instance.lastHash != expected
           then Err(WrongHash(instance.name, expected, instance.lastHash)) else Ok(instance))
    else
      None
  }

  lemma OneMorePending(polls: seq<Event>, instance: Instance, pk: Pk, previousApplied: Option<int>)
    requires AllPending(polls, pk, previousApplied) && Pending(Got(instance), pk, previousApplied)
    ensures AllPending(polls + [Got(instance)], pk, previousApplied)
  {
  }

  lemma NothingPolled(pk: Pk, previousApplied: Option<int>)
    ensures AllPending([], pk, previousApplied)
  {
  }

  lemma EndsRefused(polls: seq<Event>, pk: Pk, name: string, previousApplied: Option<int>,
      previousHash: Option<string>, expected: Option<string>)
    requires AllPending(polls, pk, previousApplied) && |polls| < 60
    ensures WaitEnds(polls + [Refused(false)], pk, name, previousApplied, previousHash, expected, Err(RequestFailed))
  {
    assert (polls + [Refused(false)])[..|polls|] == polls;
  }

  lemma EndsSettled(polls: seq<Event>, instance: Instance, pk: Pk, name: string, previousApplied: Option<int>,
      previousHash: Option<string>, expected: Option<string>, r: Result<Instance, Failure>)
    requires AllPending(polls, pk, previousApplied) && |polls| < 60
    requires instance.pk == pk && Settles(instance, previousApplied, expected, r)
    ensures WaitEnds(polls + [Got(instance)], pk, name, previousApplied, previousHash, expected, r)
    ensures r.Err? ==> r.error.ApplyFailed? || r.error.WrongHash?
    ensures r.Ok? ==>
      r.value == instance && instance.status == Successful && (expected.Some? ==> instance.lastHash == expected)
  {
    assert (polls + [Got(instance)])[..|polls|] == polls;
  }

  lemma EndsTimedOut(polls: seq<Event>, last: Option<Instance>, pk: Pk, name: string, previousApplied: Option<int>,
      previousHash: Option<string>, expected: Option<string>)
    requires AllPending(polls, pk, previousApplied) && |polls| <= 60
    requires if last.None? then polls == [] else polls != [] && polls[|polls| - 1] == Got(last.value)
    ensures WaitEnds(polls, pk, name, previousApplied, previousHash, expected,
      Err(if last.None? then TimedOut(name, expected, previousHash)
          else TimedOut(last.value.name, expected, last.value.lastHash)))
  {
  }

  lemma ConcatAssociates<T>(a: seq<T>, b: seq<T>, c: seq<T>)
    ensures (a + b) + c == a + (b + c)
  {
  }

  lemma SameIdentityHolds(before: Table, middle: Table, after: Table)
    ensures SameIdentity(before, before)
    ensures SameIdentity(before, middle) && SameIdentity(middle, after) ==> SameIdentity(before, after)
  {
    if SameIdentity(before, middle) && SameIdentity(middle, after) {
      assert forall pk | pk in before :: Identity(after[pk]) == Identity(middle[pk]);
    }
  }

  /** Poll one instance every two seconds until it is done, fails, or 120 seconds are over. */
  method WaitForInstance(server: Server, pk: Pk, name: string,
      previousApplied: Option<int>, previousHash: Option<string>, expected: Option<string>)
    returns (r: Result<Instance, Failure>, ghost polls: seq<Event>)
    requires WellKeyed(server.table) && pk in server.table
    modifies server`table, server`log, server`now
    ensures server.log == old(server.log) + polls
    // At most 60 polls, all but the last pending, and the last bears out the result.
    ensures WaitEnds(polls, pk, name, previousApplied, previousHash, expected, r) && |polls| <= 60
    ensures r.Err? && r.error.TimedOut? ==> server.now >= old(server.now) + 120000
    ensures r.Err? ==> !r.error.MissingInstances?
    ensures r.Ok? ==>
      && SameIdentity(old(server.table), server.table) && WellKeyed(server.table)
      && server.table[pk] == r.value && r.value.status == Successful
      && (expected.Some? ==> r.value.lastHash == expected)
  {
    hide AllPending, WaitEnds, SameIdentity, Verdict, Pending, Settles, Identity, WellKeyed;
    SameIdentityHolds(server.table, server.table, server.table);
    polls := [];
    NothingPolled(pk, previousApplied);
    var deadline := server.now + 120000;
    var last: Option<Instance> := None;
    while server.now < deadline
      invariant server.log == old(server.log) + polls
      invariant SameIdentity(old(server.table), server.table) && WellKeyed(server.table)
      invariant server.now >= deadline - 120000 + 2000 * |polls|
      invariant |polls| <= 60 && AllPending(polls, pk, previousApplied)
      invariant last.None? <==> polls == []
      invariant last.Some? ==> polls[|polls| - 1] == Got(last.value)
      decreases deadline - server.now
    {
      ghost var before, polled := server.table, polls;
      var answer := server.GetInstance(pk);
      polls := polled + [if answer.Err? then Refused(false) else Got(answer.value)];
      ConcatAssociates(old(server.log), polled, [polls[|polled|]]);
      if answer.Err? {
        EndsRefused(polled, pk, name, previousApplied, previousHash, expected);
        return Err(answer.error), polls;
      }
      SameIdentityHolds(old(server.table), before, server.table);
      ghost var seen := server.table;
      var instance := answer.value;
      last := Some(instance);
      var verdict := Verdict(instance, previousApplied, expected);
      if verdict.Some? {
        EndsSettled(polled, instance, pk, name, previousApplied, previousHash, expected, verdict.value);
        return verdict.value, polls;
      }
      OneMorePending(polled, instance, pk, previousApplied);
      server.Sleep();
      SameIdentityHolds(old(server.table), seen, server.table);
    }
    EndsTimedOut(polls, last, pk, name, previousApplied, previousHash, expected);
    return Err(if last.None? then TimedOut(name, expected, previousHash)
               else TimedOut(last.value.name, expected, last.value.lastHash)), polls;
  }

  // ----- One blueprint step -----

  datatype Report = Report(name: string, path: string, status: Status, actions: seq<Action>)

  datatype Done = Done(instance: Instance, actions: seq<Action>, byName: Index, byPath: Index)

  /** The cached record of this step's instance calls for nothing. */
  predicate CachedInPlace(byName: Index, name: string, blueprint: Available) {
    name in byName && InPlace(byName[name], name, blueprint)
  }

  lemma NothingIsRight(before: Table, byPath: Index, name: string, path: string)
    ensures RightRequests([], before, byPath, name, path) && RightRequests([Refused(true)], before, byPath, name, path)
    ensures ActionsFor([], name) == []
  {
  }

  lemma PathIndexIs(before: Table, byPath: Index, path: string)
    requires PathIndex(byPath, before)
    ensures path in byPath ==>
      byPath[path].pk in before && byPath[path].path == path
      && Identity(before[byPath[path].pk]) == Identity(byPath[path])
  {
  }

  lemma CreatedIsRight(before: Table, byName: Index, byPath: Index, record: Instance)
    requires NameIndex(byName, before) && record.name != "" && record.enabled && record.pk !in before
    requires record.name !in byName && record.path !in byPath
    ensures RightRequests([Created(record)], before, byPath, record.name, record.path)
    ensures ActionsFor([Created(record)], record.name) == [CreatedInstance]
  {
    OneAction(Created(record), record.name);
  }

  lemma PatchedIsRight(before: Table, byName: Index, byPath: Index, found: Instance, record: Instance)
    requires NameIndex(byName, before) && record.name != "" && record.enabled
    requires record.pk == found.pk && found.pk in before
    requires Identity(before[found.pk]) == Identity(found) != Identity(record)
    requires found.name == record.name || (found.path == record.path && record.name !in byName)
    ensures RightRequests([Patched(record)], before, byPath, record.name, record.path)
    ensures ActionsFor([Patched(record)], record.name) == [UpdatedInstance]
  {
    OneAction(Patched(record), record.name);
  }

  /** Create the instance, or rename and repoint the one found by name or else by path. */
  method EnsureInstance(server: Server, name: string, blueprint: Available, byName: Index, byPath: Index)
    returns (r: Result<(Instance, seq<Action>, bool), Failure>, previous: Option<Instance>, ghost events: seq<Event>)
    requires Agreement(server.table, byName, byPath) && name != "" && blueprint.path != ""
    modifies server`table, server`log, server`now
    ensures server.log == old(server.log) + events
    ensures r.Err? ==> r.error == RequestFailed && events == [Refused(true)]
    ensures CachedInPlace(byName, name, blueprint) ==>
      r == Ok((byName[name], [], false)) && events == [] && server.table == old(server.table)
    ensures name in byName ==> previous == Some(byName[name])
    ensures RightRequests(events, old(server.table), byPath, name, blueprint.path)
    ensures r.Ok? ==> var (instance, actions, needsApply) := r.value;
      && StepEffect(old(server.table), server.table, instance.pk, name, blueprint.path) && WellKeyed(server.table)
      && Identity(instance) == (instance.pk, name, blueprint.path, true)
      && instance.pk in server.table && Identity(server.table[instance.pk]) == Identity(instance)
      && (previous.Some? <==> instance.pk in old(server.table))
      && (previous.Some? ==> Identity(old(server.table)[instance.pk]) == Identity(previous.value))
      && (needsApply <==> !CachedInPlace(byName, name, blueprint))
      && (!needsApply ==> events == [] && actions == [] && name in byName && instance == byName[name])
      && actions == ActionsFor(events, name)
      // It is the one cached by name, or else the one cached by path.
      && (name in byName ==> instance.pk == byName[name].pk)
      && (name !in byName && blueprint.path in byPath ==> instance.pk == byPath[blueprint.path].pk)
      // One request makes sure of the instance, or it is the cached one.
      && (events == [Created(instance)] || events == [Patched(instance)]
          || (events == [] && name in byName && instance == byName[name]))
  {
    hide RightRequests, ActionsFor, PathIndex;
    NothingIsRight(old(server.table), byPath, name, blueprint.path);
    PathIndexIs(old(server.table), byPath, blueprint.path);
    events, previous := [], None;
    if name in byName {
      previous := Some(byName[name]);
    } else if blueprint.path in byPath {
      previous := Some(byPath[blueprint.path]);
    }
    match previous {
      case None =>
        var created := server.CreateInstance(name, blueprint.path);
        if created.Err? {
          events := [Refused(true)];
          return Err(created.error), previous, events;
        }
        events := [Created(created.value)];
        CreatedIsRight(old(server.table), byName, byPath, created.value);
        return Ok((created.value, [CreatedInstance], true)), previous, events;
      case Some(instance) =>
        if instance.name != name || instance.path != blueprint.path || !instance.enabled {
          var patched := server.PatchInstance(instance.pk, name, blueprint.path);
          if patched.Err? {
            events := [Refused(true)];
            return Err(patched.error), previous, events;
          }
          events := [Patched(patched.value)];
          PatchedIsRight(old(server.table), byName, byPath, instance, patched.value);
          return Ok((patched.value, [UpdatedInstance], true)), previous, events;
        }
        var needsApply := instance.status != Successful || blueprint.hash.None? || instance.lastHash != blueprint.hash;
        return Ok((instance, [], needsApply)), previous, events;
    }
  }

  /** Apply the instance and wait for the outcome. */
  method ApplyAndWait(server: Server, instance: Instance, blueprint: Available)
    returns (r: Result<Instance, Failure>, ghost events: seq<Event>, ghost polls: seq<Event>)
    requires WellKeyed(server.table) && instance.pk in server.table
    requires Identity(server.table[instance.pk]) == Identity(instance)
    modifies server`table, server`log, server`now
    ensures server.log == old(server.log) + events
    ensures r.Err? ==> !r.error.MissingInstances?
    // The apply is refused, or the wait after it ends with the result.
    ensures || (events == [Refused(true)] && r == Err(RequestFailed))
      || (events == [Applied(instance.name)] + polls
          && WaitEnds(polls, instance.pk, instance.name, instance.lastApplied, instance.lastHash, blueprint.hash, r))
    ensures r.Ok? ==>
      && SameIdentity(old(server.table), server.table) && WellKeyed(server.table)
      && Identity(r.value) == Identity(instance) && Good(r.value, instance.name, blueprint)
  {
    hide WaitEnds;
    polls := [];
    var asked := server.ApplyInstance(instance.pk);
    if asked.Err? {
      events := [Refused(true)];
      return Err(asked.error), events, polls;
    }
    r, polls := WaitForInstance(
      server, instance.pk, instance.name, instance.lastApplied, instance.lastHash, blueprint.hash);
    events := [Applied(instance.name)] + polls;
  }

  lemma EffectThenOutcome(before: Table, middle: Table, after: Table, pk: Pk, name: string, path: string)
    requires StepEffect(before, middle, pk, name, path) && SameIdentity(middle, after)
    ensures StepEffect(before, after, pk, name, path)
  {
  }

  /** The requests of a step, as the log's description has them. */
  lemma StepLogged(records: seq<Instance>, name: string, blueprint: Available, base: Instance, ensured: seq<Event>,
      applied: seq<Event>, polls: seq<Event>, r: Result<Instance, Failure>)
    requires Begun(Work(ensured, base, []), records, name, blueprint)
    requires || (applied == [Refused(true)] && r == Err(RequestFailed))
      || (applied == [Applied(base.name)] + polls
          && WaitEnds(polls, base.pk, base.name, base.lastApplied, base.lastHash, blueprint.hash, r))
    requires r.Ok? ==> AsWanted(r.value, name, blueprint)
    ensures r.Ok? ==> BlueprintWent(records, name, blueprint, ensured + applied)
    ensures r.Ok? ==> applied != [] && applied[|applied| - 1] == Got(r.value)
    ensures r.Err? ==> BlueprintFailed(records, name, blueprint, ensured + applied, r.error)
    ensures !Quiet(ensured + applied)
  {
    hide WaitEnds, AsWanted;
    if applied == [Refused(true)] {
      assert Begun(Work(ensured, base, []), records, name, blueprint);
    } else {
      var w := Work(ensured, base, polls);
      WaitShape(polls, base.pk, base.name, base.lastApplied, base.lastHash, blueprint.hash, r);
      assert ensured + applied == Requests(w);
      assert Worked(w, records, name, blueprint, ensured + applied, r);
    }
    assert Mutating((ensured + applied)[|ensured|]);
  }

  /** An apply and its wait create and patch nothing, and count as one action. */
  lemma ApplyDone(ensured: seq<Event>, applied: seq<Event>, base: Instance, polls: seq<Event>,
      expected: Option<string>, r: Result<Instance, Failure>)
    requires || (applied == [Refused(true)] && r == Err(RequestFailed))
      || (applied == [Applied(base.name)] + polls
          && WaitEnds(polls, base.pk, base.name, base.lastApplied, base.lastHash, expected, r))
    ensures forall e | e in ensured + applied && (e.Created? || e.Patched?) :: e in ensured
    ensures r.Ok? ==> ActionsFor(ensured + applied, base.name) == ActionsFor(ensured, base.name) + [AppliedInstance]
  {
    hide WaitEnds, ActionsFor, FatalIsLast, NoneFatal;
    if applied == [Refused(true)] {
      assert applied[0].Refused? && r.Err?;
    } else {
      WaitShape(polls, base.pk, base.name, base.lastApplied, base.lastHash, expected, r);
      ActionsConcat(ensured, applied, base.name);
      ActionsConcat([Applied(base.name)], polls, base.name);
      OneAction(Applied(base.name), base.name);
      NoActions(polls, base.name);
      assert [AppliedInstance] + [] == [AppliedInstance];
    }
  }

  lemma NothingAsked(records: seq<Instance>, name: string, blueprint: Available, base: Instance)
    requires base in records && InPlace(base, name, blueprint)
    ensures BlueprintWent(records, name, blueprint, []) && Quiet([])
  {
  }

  lemma RefusedAtFirst(records: seq<Instance>, name: string, blueprint: Available)
    ensures BlueprintFailed(records, name, blueprint, [Refused(true)], RequestFailed)
  {
  }

  /** The entries of other names are dropped or left as they are. */
  lemma OtherNamesAfter(byName: Index, previous: Option<Instance>, instance: Instance)
    ensures forall n | n in NamesAfter(byName, previous, instance) && n != instance.name ::
      n in byName && NamesAfter(byName, previous, instance)[n] == byName[n]
    ensures previous.Some? && previous.value.name == instance.name
      && instance.name in byName && byName[instance.name] == instance
      ==> NamesAfter(byName, previous, instance) == byName
  {
  }

  /** One step along the plan; `records` is the run's opening listing. */
  method ReconcileBlueprint(server: Server, name: string, blueprint: Available, byName: Index, byPath: Index,
      ghost records: seq<Instance>)
    returns (r: Result<Done, Failure>, ghost events: seq<Event>)
    requires Agreement(server.table, byName, byPath) && name != "" && blueprint.path != ""
    requires name in byName ==> byName[name] in records
    modifies server`table, server`log, server`now
    ensures server.log == old(server.log) + events
    // The requests are those of a step that goes well, or fails with the error.
    ensures r.Ok? ==> BlueprintWent(records, name, blueprint, events)
    ensures r.Err? ==> BlueprintFailed(records, name, blueprint, events, r.error) && !r.error.MissingInstances?
    ensures CachedInPlace(byName, name, blueprint) ==> r.Ok? && events == []
    // Whoever has the name, or else the path, is corrected; if nobody has, one is created.
    ensures RightRequests(events, old(server.table), byPath, name, blueprint.path)
    ensures r.Ok? ==> var done := r.value;
      && StepEffect(old(server.table), server.table, done.instance.pk, name, blueprint.path)
      && Identity(done.instance) == (done.instance.pk, name, blueprint.path, true)
      && Agreement(server.table, done.byName, done.byPath)
      && Good(done.instance, name, blueprint)
      && DropsOnlyMoved(old(server.table), server.table, byPath, done.byPath) && blueprint.path in done.byPath
      && done.actions == ActionsFor(events, name)
      && (done.actions == [] <==> CachedInPlace(byName, name, blueprint))
      && (done.actions == [] <==> Quiet(events))
      && (done.actions != [] ==> events != [] && events[|events| - 1] == Got(done.instance))
      && (done.actions == [] ==> done.byName == byName && done.instance == byName[name])
      && (forall n | n in done.byName && n != name :: n in byName && done.byName[n] == byName[n])
  {
    hide BlueprintWent, BlueprintFailed, WaitEnds, Quiet, StepEffect, NamesAfter, PathsAfter, SameIdentity,
      PathIndex, NameIndex, UniqueNames, Good, Mutating, Requests, ActionsFor, RightRequests, DropsOnlyMoved,
      PathCached;
    var ensured, previous, before := EnsureInstance(server, name, blueprint, byName, byPath);
    events := before;
    if ensured.Err? {
      RefusedAtFirst(records, name, blueprint);
      return Err(ensured.error), events;
    }
    var (instance, actions, needsApply) := ensured.value;
    ghost var middle := server.table;
    if needsApply {
      var applied, after, polls := ApplyAndWait(server, instance, blueprint);
      StepLogged(records, name, blueprint, instance, before, after, polls, applied);
      ApplyDone(before, after, instance, polls, blueprint.hash, applied);
      events := before + after;
      OthersAreRight(before, events, old(server.table), byPath, name, blueprint.path);
      if applied.Err? {
        return Err(applied.error), events;
      }
      EffectThenOutcome(old(server.table), middle, server.table, instance.pk, name, blueprint.path);
      instance := applied.value;
      actions := actions + [AppliedInstance];
    } else {
      NothingAsked(records, name, blueprint, instance);
    }
    AgreementAfter(old(server.table), server.table, byName, byPath, previous, instance);
    PathsDropped(old(server.table), server.table, byPath, previous, instance);
    OtherNamesAfter(byName, previous, instance);
    r := Ok(Done(instance, actions, NamesAfter(byName, previous, instance), PathsAfter(byPath, previous, instance)));
  }
}
