/** The reconciliation loop of scripts/authentik_blueprint_sync.py, and two runs in a row. */
module BlueprintConvergence {
  import opened Results
  import opened Text
  import opened BlueprintServer
  import opened BlueprintPlan
  import opened BlueprintLog
  import opened BlueprintReconcile
  import opened BlueprintRun

  datatype Outcome = Outcome(changed: bool, applied: seq<Report>)

  /** The server as the first listing of a run finds it. */
  datatype Start = Start(table: Table, bindings: seq<Binding>, byName: Index, records: seq<Instance>)

  /** Names and hashes of the blueprint steps done so far. */
  ghost predicate ExpectedHashes(expected: map<string, string>, plan: Plan, available: seq<Available>, i: int)
    requires i <= |plan|
  {
    && (forall j | 0 <= j < i && IsBlueprint(plan[j]) :: MatchOf(available, plan[j].relative).Some?
          && match MatchOf(available, plan[j].relative).value.hash
             case None => plan[j].name !in expected
             case Some(hash) => plan[j].name in expected && expected[plan[j].name] == hash)
    && (forall n | n in expected :: exists j | 0 <= j < i :: plan[j].name == n)
  }

  /** The cached records of steps still to come are those of the first listing. */
  ghost predicate UntouchedAhead(byName: Index, start: Start, plan: Plan, i: int)
    requires i <= |plan|
  {
    && (forall n | n in start.byName :: start.byName[n] in start.records)
    && (forall n | n in byName && (forall j | 0 <= j < i :: plan[j].name != n) ::
          n in start.byName && byName[n] == start.byName[n])
  }

  lemma UntouchedAfter(byName: Index, next: Index, start: Start, plan: Plan, i: nat)
    requires i < |plan| && UntouchedAhead(byName, start, plan, i)
    requires forall n | n in next && n != plan[i].name :: n in byName && next[n] == byName[n]
    ensures UntouchedAhead(next, start, plan, i + 1)
  {
  }

  ghost predicate SettledUpTo(server: Server, table: Table, bindings: seq<Binding>, plan: Plan, i: int)
    requires i <= |plan|
  {
    forall j | 0 <= j < i ::
      Settled(table, plan[j], server.available) && (!IsBlueprint(plan[j]) ==> ServerBindingInPlace(server, bindings))
  }

  lemma SettledAfter(server: Server, before: Table, bindings0: seq<Binding>, after: Table, bindings1: seq<Binding>,
      plan: Plan, i: nat, owner: Pk)
    requires i < |plan| && DistinctNames(plan) && UniqueNames(before) && UniqueNames(after)
    requires SettledUpTo(server, before, bindings0, plan, i)
    requires Moved(before, after, server.available, plan[i], owner)
    requires IsBlueprint(plan[i]) ==> bindings1 == bindings0
    requires !IsBlueprint(plan[i]) ==> ServerBindingInPlace(server, bindings1)
    ensures SettledUpTo(server, after, bindings1, plan, i + 1)
  {
    forall j | 0 <= j < i + 1
      ensures Settled(after, plan[j], server.available)
        && (!IsBlueprint(plan[j]) ==> ServerBindingInPlace(server, bindings1))
    {
      if j < i {
        assert plan[j].name != plan[i].name;
        if IsBlueprint(plan[i]) {
          SettledStays(before, after, owner, plan[i].name,
            MatchOf(server.available, plan[i].relative).value.path, plan[j], server.available);
        } else {
          forall k | k in after && after[k].name == plan[j].name
            ensures k in before && Identity(after[k]) == Identity(before[k])
          {
          }
        }
      }
    }
  }

  /** With distinct matches, every instance reconciled so far still is the one reconciled. */
  ghost predicate KeptUpTo(table: Table, plan: Plan, available: seq<Available>, owners: seq<Pk>) {
    |owners| <= |plan| && forall j | 0 <= j < |owners| :: Kept(table, plan[j], available, owners[j])
  }

  lemma KeptAfter(before: Table, after: Table, plan: Plan, available: seq<Available>, owners: seq<Pk>, owner: Pk)
    requires DistinctNames(plan) && DistinctMatches(plan, available) && |owners| < |plan|
    requires KeptUpTo(before, plan, available, owners)
    requires Moved(before, after, available, plan[|owners|], owner)
    ensures KeptUpTo(after, plan, available, owners + [owner])
  {
    var i := |owners|;
    forall j | 0 <= j < i + 1
      ensures Kept(after, plan[j], available, (owners + [owner])[j])
    {
      if j < i && IsBlueprint(plan[j]) {
        assert Kept(before, plan[j], available, owners[j]);
        assert plan[j].name != plan[i].name;
        if IsBlueprint(plan[i]) {
          EffectSparesOthers(before, after, owner, plan[i].name,
            MatchOf(available, plan[i].relative).value.path, owners[j]);
        }
      }
    }
  }

  /** A step's cached record, while the step is still to come, is from the first listing. */
  lemma CachedIsListed(byName: Index, start: Start, plan: Plan, i: nat)
    requires i < |plan| && DistinctNames(plan) && UntouchedAhead(byName, start, plan, i)
    ensures plan[i].name in byName ==> byName[plan[i].name] in start.records
  {
  }

  lemma WalkedOn(log: seq<Event>, events: seq<Event>, records: seq<Instance>, server: Server, plan: Plan, i: nat)
    requires i < |plan| && Walked(log, records, server, plan, i) && StepWent(records, server, plan[i], events)
    ensures Walked(log + events, records, server, plan, i + 1)
  {
    hide StepWent;
    var all, m := log + events, |log|;
    assert all[..m] == log && all[m..] == events;
  }

  /** The name cache is built from the table exactly as the first listing shows it. */
  ghost predicate StartOk(start: Start) {
    && UniqueNames(start.table) && WellKeyed(start.table)
    && (forall n | n in start.byName ::
          && start.byName[n].name == n
          && start.byName[n].pk in start.table && start.table[start.byName[n].pk] == start.byName[n])
    && (forall pk | pk in start.table ::
          start.table[pk].name in start.byName && start.byName[start.table[pk].name] == start.table[pk])
  }

  /** While nothing has changed, the step's needs can be read off the first listing. */
  lemma NeedsFromStart(server: Server, start: Start, step: Step)
    requires StartOk(start) && step.name != ""
    ensures NeedsNothing(start.byName, start.bindings, server, step) <==>
      StepInPlace(start.table, start.bindings, server, step)
  {
    if IsBlueprint(step) {
      var blueprint := MatchOf(server.available, step.relative);
      if blueprint.Some? {
        CachedInPlaceIff(start.table, start.byName, step, blueprint.value);
      }
    } else if NAVIDROME in start.byName {
      assert start.table[start.byName[NAVIDROME].pk].name == NAVIDROME;
    }
  }

  lemma QuietConcat(a: seq<Event>, b: seq<Event>)
    ensures Quiet(a + b) <==> Quiet(a) && Quiet(b)
  {
    if Quiet(a + b) {
      forall i | 0 <= i < |a|
        ensures !Mutating(a[i])
      {
        assert (a + b)[i] == a[i];
      }
      forall i | 0 <= i < |b|
        ensures !Mutating(b[i])
      {
        assert (a + b)[|a| + i] == b[i];
      }
    }
  }

  /** The records that end a normal run show every step's goal reached. */
  lemma FinalIsReached(server: Server, table: Table, bindings: seq<Binding>, records: seq<Instance>,
      names: set<string>, expected: map<string, string>, plan: Plan, j: nat)
    requires j < |plan| && DistinctNames(plan) && IsListing(records, table)
    requires SettledUpTo(server, table, bindings, plan, |plan|)
    requires ExpectedHashes(expected, plan, server.available, |plan|)
    requires IsBlueprint(plan[j]) ==> plan[j].name in names
    requires forall n | n in names :: exists i | 0 <= i < |records| :: records[i].name == n
    requires forall i | 0 <= i < |records| && records[i].name in names ::
      records[i].status == Successful
      && (records[i].name in expected ==> records[i].lastHash == Some(expected[records[i].name]))
    ensures StepReached(table, bindings, server, plan[j])
  {
    assert Settled(table, plan[j], server.available);
    if IsBlueprint(plan[j]) {
      var i :| 0 <= i < |records| && records[i].name == plan[j].name;
      var record := records[i];
      assert record in records;
      assert record.pk in table && table[record.pk] == record;
      assert Good(record, plan[j].name, MatchOf(server.available, plan[j].relative).value);
    }
  }

  lemma AllReached(server: Server, table: Table, bindings: seq<Binding>, records: seq<Instance>,
      names: set<string>, expected: map<string, string>, plan: Plan)
    requires DistinctNames(plan) && IsListing(records, table)
    requires SettledUpTo(server, table, bindings, plan, |plan|)
    requires ExpectedHashes(expected, plan, server.available, |plan|)
    requires forall n :: n in names <==> exists j | 0 <= j < |plan| && IsBlueprint(plan[j]) :: plan[j].name == n
    requires forall n | n in names :: exists i | 0 <= i < |records| :: records[i].name == n
    requires forall i | 0 <= i < |records| && records[i].name in names ::
      records[i].status == Successful
      && (records[i].name in expected ==> records[i].lastHash == Some(expected[records[i].name]))
    ensures forall j | 0 <= j < |plan| :: StepReached(table, bindings, server, plan[j])
  {
    hide SettledUpTo, ExpectedHashes, StepReached, DistinctNames, IsListing;
    forall j | 0 <= j < |plan|
      ensures StepReached(table, bindings, server, plan[j])
    {
      FinalIsReached(server, table, bindings, records, names, expected, plan, j);
    }
  }

  /** The variables of the loop. */
  datatype Loop = Loop(byName: Index, byPath: Index, applied: seq<Report>, changed: bool, expected: map<string, string>)

  function LoopAfter(loop: Loop, step: Step, done: StepDone): Loop {
    Loop(done.byName, done.byPath, loop.applied + [done.report], loop.changed || done.report.actions != [],
      if done.hash.Some? then loop.expected[step.name := done.hash.value] else loop.expected)
  }

  /** What holds at the head of plan step `i`. */
  ghost predicate Going(server: Server, start: Start, plan: Plan, i: nat, table: Table, bindings: seq<Binding>,
      loop: Loop, events: seq<Event>, owners: seq<Pk>)
    requires i <= |plan|
  {
    && Agreement(table, loop.byName, loop.byPath)
    && Walked(events, start.records, server, plan, i)
    && UntouchedAhead(loop.byName, start, plan, i)
    && SettledUpTo(server, table, bindings, plan, i)
    && ExpectedHashes(loop.expected, plan, server.available, i)
    && |owners| == i && (DistinctMatches(plan, server.available) ==> KeptUpTo(table, plan, server.available, owners))
    && (loop.changed <==> !Quiet(events))
    && (loop.changed <==> !PlanInPlace(start.table, start.bindings, server, plan, i))
    && (!loop.changed ==> loop.byName == start.byName && bindings == start.bindings)
    && |loop.applied| == i && (forall j | 0 <= j < i :: loop.applied[j].name == plan[j].name)
    && (loop.changed <==> exists j | 0 <= j < i :: loop.applied[j].actions != [])
  }

  /** The parts of `Going` about what has been reported. */
  lemma ReportedAfter(server: Server, start: Start, plan: Plan, i: nat, bindings0: seq<Binding>,
      loop: Loop, done: StepDone, events: seq<Event>, requests: seq<Event>)
    requires PlanOk(plan) && i < |plan|
    requires |loop.applied| == i && (forall j | 0 <= j < i :: loop.applied[j].name == plan[j].name)
    requires loop.changed <==> exists j | 0 <= j < i :: loop.applied[j].actions != []
    requires loop.changed <==> !Quiet(events)
    requires loop.changed <==> !PlanInPlace(start.table, start.bindings, server, plan, i)
    requires !loop.changed ==> loop.byName == start.byName && bindings0 == start.bindings
    requires NeedsNothing(start.byName, start.bindings, server, plan[i]) <==>
      StepInPlace(start.table, start.bindings, server, plan[i])
    requires done.report.name == plan[i].name
    requires done.report.actions == [] <==> NeedsNothing(loop.byName, bindings0, server, plan[i])
    requires done.report.actions == [] <==> Quiet(requests)
    ensures var next := LoopAfter(loop, plan[i], done);
      && (forall j | 0 <= j < i + 1 :: next.applied[j].name == plan[j].name)
      && (next.changed <==> exists j | 0 <= j < i + 1 :: next.applied[j].actions != [])
      && (next.changed <==> !Quiet(events + requests))
      && (next.changed <==> !PlanInPlace(start.table, start.bindings, server, plan, i + 1))
  {
    QuietConcat(events, requests);
    var next := LoopAfter(loop, plan[i], done);
    assert next.applied[i] == done.report;
    assert forall j | 0 <= j < i :: next.applied[j] == loop.applied[j];
    if !loop.changed {
      assert PlanInPlace(start.table, start.bindings, server, plan, i + 1) <==>
        StepInPlace(start.table, start.bindings, server, plan[i]);
    }
  }

  lemma ExpectedAfter(plan: Plan, i: nat, available: seq<Available>, loop: Loop, done: StepDone)
    requires PlanOk(plan) && i < |plan| && ExpectedHashes(loop.expected, plan, available, i)
    requires IsBlueprint(plan[i]) ==>
      MatchOf(available, plan[i].relative).Some? && done.hash == MatchOf(available, plan[i].relative).value.hash
    requires !IsBlueprint(plan[i]) ==> done.hash.None?
    ensures ExpectedHashes(LoopAfter(loop, plan[i], done).expected, plan, available, i + 1)
  {
    var expected := LoopAfter(loop, plan[i], done).expected;
    assert plan[i].name !in loop.expected;
    forall n | n in expected
      ensures exists j | 0 <= j < i + 1 :: plan[j].name == n
    {
      if n in loop.expected {
        var j :| 0 <= j < i && plan[j].name == n;
      } else {
        assert plan[i].name == n;
      }
    }
  }

  // ----- Whom a run creates, corrects and reports -----

  ghost predicate UniquePaths(table: Table) {
    forall a, b | a in table && b in table && a != b && table[a].path != "" :: table[a].path != table[b].path
  }

  /** The tables before each step, and after the last: each step does to its table what a step
      does, and nothing else. */
  ghost predicate Trajectory(tables: seq<Table>, plan: Plan, available: seq<Available>, owners: seq<Pk>) {
    && |tables| == |owners| + 1 <= |plan| + 1
    && forall j | 0 <= j < |owners| :: Moved(tables[j], tables[j + 1], available, plan[j], owners[j])
  }

  /** A create or patch is right for the table that some step found; `strict` says that nobody has
      the path of a new instance, either. */
  ghost predicate FitsStep(e: Event, before: Table, step: Step, available: seq<Available>, strict: bool) {
    && IsBlueprint(step) && MatchOf(available, step.relative).Some?
    && var path := MatchOf(available, step.relative).value.path;
       RightRequest(e, before, step.name, path) && (strict ==> OnlyIfMissing(e, before, path))
  }

  ghost predicate RequestFits(e: Event, tables: seq<Table>, plan: Plan, available: seq<Available>, strict: bool) {
    e.Created? || e.Patched? ==>
      exists j | 0 <= j < |tables| && j < |plan| :: FitsStep(e, tables[j], plan[j], available, strict)
  }

  ghost predicate RunFits(events: seq<Event>, tables: seq<Table>, plan: Plan, available: seq<Available>, strict: bool) {
    forall e | e in events :: RequestFits(e, tables, plan, available, strict)
  }

  /** The reports tell each step's name, file and status, and what the log shows was done for it. */
  ghost predicate ReportsRight(applied: seq<Report>, plan: Plan, available: seq<Available>, events: seq<Event>) {
    && |applied| <= |plan|
    && forall j | 0 <= j < |applied| :: applied[j]
         == Report(plan[j].name, PathOf(available, plan[j]), Successful, ActionsFor(events, plan[j].name))
  }

  ghost predicate MatchedBefore(plan: Plan, available: seq<Available>, i: int, path: string)
    requires i <= |plan|
  {
    exists j | 0 <= j < i && IsBlueprint(plan[j]) :: PathOf(available, plan[j]) == path
  }

  /** Of the files no step has dealt with yet, each has at most one instance, and that is cached. */
  ghost predicate PathsAhead(table: Table, byPath: Index, plan: Plan, available: seq<Available>, i: int)
    requires i <= |plan|
  {
    forall p | p != "" && !MatchedBefore(plan, available, i, p) :: SingleAndCached(table, byPath, p)
  }

  ghost predicate SingleAndCached(table: Table, byPath: Index, path: string) {
    && (forall a, b | a in table && b in table && table[a].path == path == table[b].path :: a == b)
    && PathCached(byPath, table, path)
  }

  lemma SingleAndCachedAfter(before: Table, after: Table, available: seq<Available>, step: Step, owner: Pk,
      byPath: Index, next: Index, path: string)
    requires Moved(before, after, available, step, owner) && DropsOnlyMoved(before, after, byPath, next)
    requires IsBlueprint(step) ==> path != PathOf(available, step)
    requires SingleAndCached(before, byPath, path)
    ensures SingleAndCached(after, next, path)
  {
    forall k | k in after && after[k].path == path
      ensures k in before && before[k].path == path && path in next
    {
      assert k in before && Identity(after[k]) == Identity(before[k]);
    }
  }

  lemma PathsAheadAfter(before: Table, after: Table, plan: Plan, available: seq<Available>, i: nat, owner: Pk,
      byPath: Index, next: Index)
    requires i < |plan| && PathsAhead(before, byPath, plan, available, i)
    requires Moved(before, after, available, plan[i], owner) && DropsOnlyMoved(before, after, byPath, next)
    ensures PathsAhead(after, next, plan, available, i + 1)
  {
    hide Moved, DropsOnlyMoved, SingleAndCached, PathOf, IsBlueprint;
    forall p | p != "" && !MatchedBefore(plan, available, i + 1, p)
      ensures SingleAndCached(after, next, p)
    {
      assert !MatchedBefore(plan, available, i, p) && (IsBlueprint(plan[i]) ==> PathOf(available, plan[i]) != p);
      SingleAndCachedAfter(before, after, available, plan[i], owner, byPath, next, p);
    }
  }

  /** From this table on, each finished step does what a step does, and every create and patch is
      right for the table its step found. */
  ghost predicate Tracked(table: Table, plan: Plan, available: seq<Available>, events: seq<Event>, owners: seq<Pk>,
      tables: seq<Table>)
  {
    && Trajectory(tables, plan, available, owners) && tables[0] == table
    && RunFits(events, tables, plan, available, Strict(table, plan, available))
  }

  /** What holds at the head of the loop, beside `Going`. */
  ghost predicate OnTrack(start: Start, plan: Plan, available: seq<Available>, table: Table, loop: Loop,
      events: seq<Event>, owners: seq<Pk>, tables: seq<Table>)
  {
    && Tracked(start.table, plan, available, events, owners, tables) && tables[|owners|] == table
    && (Strict(start.table, plan, available) ==> PathsAhead(table, loop.byPath, plan, available, |owners|))
    && |loop.applied| == |owners| && ReportsRight(loop.applied, plan, available, events)
  }

  /** Stored paths are pairwise different, and so are the steps' files. */
  ghost predicate Strict(table: Table, plan: Plan, available: seq<Available>) {
    UniquePaths(table) && DistinctMatches(plan, available)
  }

  lemma OnTrackAtStart(start: Start, plan: Plan, available: seq<Available>, byPath: Index)
    requires forall p | p != "" :: PathCached(byPath, start.table, p)
    ensures OnTrack(start, plan, available, start.table, Loop(start.byName, byPath, [], false, map[]),
      [Read, Listed(start.records)], [], [start.table])
  {
    hide DistinctMatches;
  }

  /** The step's own file has not been dealt with, so whoever has its path is cached. */
  lemma OwnPathIsCached(table: Table, byPath: Index, plan: Plan, available: seq<Available>, i: nat)
    requires PlanOk(plan) && i < |plan| && DistinctMatches(plan, available)
    requires PathsAhead(table, byPath, plan, available, i)
    requires IsBlueprint(plan[i]) && MatchOf(available, plan[i].relative).Some?
    requires forall j | 0 <= j < i && IsBlueprint(plan[j]) :: MatchOf(available, plan[j].relative).Some?
    ensures PathCached(byPath, table, MatchOf(available, plan[i].relative).value.path)
  {
    hide SingleAndCached;
    var path := MatchOf(available, plan[i].relative).value.path;
    MatchEnds(available, plan[i].relative);
    assert !MatchedBefore(plan, available, i, path);
    assert SingleAndCached(table, byPath, path) ==> PathCached(byPath, table, path) by {
      SingleMeansCached(table, byPath, path);
    }
  }

  lemma SingleMeansCached(table: Table, byPath: Index, path: string)
    ensures SingleAndCached(table, byPath, path) ==> PathCached(byPath, table, path)
  {
  }

  /** The requests of the step under way fit the table it finds. */
  lemma StepFits(start: Start, plan: Plan, available: seq<Available>, table: Table, loop: Loop,
      events: seq<Event>, requests: seq<Event>, owners: seq<Pk>, tables: seq<Table>)
    requires PlanOk(plan) && |owners| < |plan|
    requires OnTrack(start, plan, available, table, loop, events, owners, tables)
    requires RequestsFit(requests, table, loop.byPath, plan[|owners|], available)
    requires forall j | 0 <= j < |owners| && IsBlueprint(plan[j]) :: MatchOf(available, plan[j].relative).Some?
    ensures Tracked(start.table, plan, available, events + requests, owners, tables)
  {
    hide PathsAhead, PathCached, DistinctMatches, Trajectory, UniquePaths, ReportsRight, RightRequest, OnlyIfMissing;
    var i, strict := |owners|, Strict(start.table, plan, available);
    TrajectoryLength(tables, plan, available, owners);
    if strict && IsBlueprint(plan[i]) && MatchOf(available, plan[i].relative).Some? {
      OwnPathIsCached(table, loop.byPath, plan, available, i);
    }
    forall e | e in requests
      ensures RequestFits(e, tables, plan, available, strict)
    {
      if e.Created? || e.Patched? {
        assert FitsStep(e, tables[i], plan[i], available, strict);
      }
    }
  }

  lemma TrajectoryLength(tables: seq<Table>, plan: Plan, available: seq<Available>, owners: seq<Pk>)
    requires Trajectory(tables, plan, available, owners)
    ensures |tables| == |owners| + 1
  {
  }

  lemma RunFitsMore(events: seq<Event>, tables: seq<Table>, next: Table, plan: Plan, available: seq<Available>,
      strict: bool)
    requires RunFits(events, tables, plan, available, strict)
    ensures RunFits(events, tables + [next], plan, available, strict)
  {
    hide FitsStep;
    forall e | e in events && (e.Created? || e.Patched?)
      ensures RequestFits(e, tables + [next], plan, available, strict)
    {
      assert RequestFits(e, tables, plan, available, strict);
      var j :| 0 <= j < |tables| && j < |plan| && FitsStep(e, tables[j], plan[j], available, strict);
      assert (tables + [next])[j] == tables[j];
    }
  }

  lemma TrajectoryAfter(tables: seq<Table>, next: Table, plan: Plan, available: seq<Available>, owners: seq<Pk>,
      owner: Pk)
    requires |owners| < |plan| && Trajectory(tables, plan, available, owners)
    requires Moved(tables[|owners|], next, available, plan[|owners|], owner)
    ensures Trajectory(tables + [next], plan, available, owners + [owner])
  {
    hide Moved;
    forall j | 0 <= j < |owners| + 1
      ensures Moved((tables + [next])[j], (tables + [next])[j + 1], available, plan[j], (owners + [owner])[j])
    {
      if j < |owners| {
        assert Moved(tables[j], tables[j + 1], available, plan[j], owners[j]);
      }
    }
  }

  /** The log so far shows nothing of the step's name, and the step's requests nothing of others'. */
  lemma ReportsAfter(applied: seq<Report>, report: Report, plan: Plan, available: seq<Available>,
      events: seq<Event>, requests: seq<Event>)
    requires |applied| < |plan| && DistinctNames(plan) && ReportsRight(applied, plan, available, events)
    requires Untouched(events, plan[|applied|].name) && TouchesOnly(requests, plan[|applied|].name)
    requires var step := plan[|applied|];
      report == Report(step.name, PathOf(available, step), Successful, ActionsFor(requests, step.name))
    ensures ReportsRight(applied + [report], plan, available, events + requests)
  {
    hide PathOf, ActionsFor, TouchesOnly;
    var i := |applied|;
    OthersUntouched(requests, |requests|, plan, i);
    assert requests[..|requests|] == requests;
    forall j | 0 <= j < i + 1
      ensures (applied + [report])[j]
        == Report(plan[j].name, PathOf(available, plan[j]), Successful, ActionsFor(events + requests, plan[j].name))
    {
      ActionsConcat(events, requests, plan[j].name);
      if j < i {
        NoActions(requests, plan[j].name);
      } else {
        NoActions(events, plan[j].name);
      }
    }
  }

  lemma TrackedAfter(start: Table, plan: Plan, available: seq<Available>, next: Table, events: seq<Event>,
      owners: seq<Pk>, owner: Pk, tables: seq<Table>)
    requires |owners| < |plan| && Tracked(start, plan, available, events, owners, tables)
    requires |tables| > |owners| ==> Moved(tables[|owners|], next, available, plan[|owners|], owner)
    ensures |tables| == |owners| + 1
    ensures Tracked(start, plan, available, events, owners + [owner], tables + [next])
  {
    hide Trajectory, Strict, RunFits, Moved;
    TrajectoryLength(tables, plan, available, owners);
    RunFitsMore(events, tables, next, plan, available, Strict(start, plan, available));
    TrajectoryAfter(tables, next, plan, available, owners, owner);
  }

  /** A step touches its own name only, and nobody has before. */
  lemma StepTouches(server: Server, records: seq<Instance>, plan: Plan, i: nat, events: seq<Event>,
      requests: seq<Event>)
    requires DistinctNames(plan) && i < |plan| && Walked(events, records, server, plan, i)
    requires StepWent(records, server, plan[i], requests)
    ensures Untouched(events, plan[i].name) && TouchesOnly(requests, plan[i].name)
  {
    hide Walked, StepWent, DistinctNames, Untouched, TouchesOnly, NoneFatal, AppliesInOrder, EarlierObserved,
      AtMostOneApply, FatalIsLast;
    WalkIsSafe(events, records, server, plan, i);
    StepShape(records, server, plan[i], requests, RequestFailed);
  }

  lemma OnTrackAfter(server: Server, start: Start, plan: Plan, table0: Table, table1: Table, loop: Loop, done: StepDone,
      events: seq<Event>, requests: seq<Event>, owners: seq<Pk>, tables: seq<Table>)
    requires PlanOk(plan) && |owners| < |plan|
    requires OnTrack(start, plan, server.available, table0, loop, events, owners, tables)
    requires Walked(events, start.records, server, plan, |owners|)
    requires StepWent(start.records, server, plan[|owners|], requests)
    requires Tracked(start.table, plan, server.available, events + requests, owners, tables)
    requires Moved(table0, table1, server.available, plan[|owners|], done.owner)
    requires DropsOnlyMoved(table0, table1, loop.byPath, done.byPath)
    requires var step := plan[|owners|];
      done.report == Report(step.name, PathOf(server.available, step), Successful, ActionsFor(requests, step.name))
    ensures OnTrack(start, plan, server.available, table1, LoopAfter(loop, plan[|owners|], done), events + requests,
      owners + [done.owner], tables + [table1])
  {
    hide PathsAhead, PathOf, Tracked, Strict, Moved, DropsOnlyMoved, Walked, StepWent, ReportsRight, DistinctNames,
      Untouched, TouchesOnly, ActionsFor, IsBlueprint;
    var i, available := |owners|, server.available;
    TrackedAfter(start.table, plan, available, table1, events + requests, owners, done.owner, tables);
    if Strict(start.table, plan, available) {
      PathsAheadAfter(table0, table1, plan, available, i, done.owner, loop.byPath, done.byPath);
    }
    StepTouches(server, start.records, plan, i, events, requests);
    ReportsAfter(loop.applied, done.report, plan, available, events, requests);
  }

  lemma RefusedAtOnce(log: seq<Event>, server: Server, plan: Plan)
    requires log == [Refused(false)] || log == [Read, Refused(false)]
    ensures RunLog(log, server, plan, Some(RequestFailed)) && Quiet(log)
  {
  }

  lemma GoingAtStart(server: Server, start: Start, plan: Plan, byPath: Index)
    requires Agreement(start.table, start.byName, byPath)
    requires forall n | n in start.byName :: start.byName[n] in start.records
    ensures Going(server, start, plan, 0, start.table, start.bindings, Loop(start.byName, byPath, [], false, map[]),
      [Read, Listed(start.records)], [])
  {
  }

  lemma GoingAfter(server: Server, start: Start, plan: Plan, i: nat,
      table0: Table, bindings0: seq<Binding>, table1: Table, bindings1: seq<Binding>,
      loop: Loop, done: StepDone, events: seq<Event>, requests: seq<Event>, owners: seq<Pk>)
    requires PlanOk(plan) && i < |plan|
    requires Going(server, start, plan, i, table0, bindings0, loop, events, owners)
    requires NeedsNothing(start.byName, start.bindings, server, plan[i]) <==>
      StepInPlace(start.table, start.bindings, server, plan[i])
    requires StepWent(start.records, server, plan[i], requests)
    requires Agreement(table1, done.byName, done.byPath)
    requires Moved(table0, table1, server.available, plan[i], done.owner)
    requires done.report.name == plan[i].name
    requires done.report.actions == [] <==> NeedsNothing(loop.byName, bindings0, server, plan[i])
    requires done.report.actions == [] <==> Quiet(requests)
    requires done.report.actions == [] ==> done.byName == loop.byName && bindings1 == bindings0
    requires forall n | n in done.byName && n != plan[i].name :: n in loop.byName && done.byName[n] == loop.byName[n]
    requires IsBlueprint(plan[i]) ==>
      && MatchOf(server.available, plan[i].relative).Some? && bindings1 == bindings0
      && done.hash == MatchOf(server.available, plan[i].relative).value.hash
    requires !IsBlueprint(plan[i]) ==> ServerBindingInPlace(server, bindings1) && done.hash.None?
    ensures Going(server, start, plan, i + 1, table1, bindings1, LoopAfter(loop, plan[i], done),
      events + requests, owners + [done.owner])
  {
    hide Walked, SettledUpTo, ExpectedHashes, KeptUpTo, UntouchedAhead, StepInPlace, StepWent, NeedsNothing,
      PlanInPlace, Moved, NameIndex, PathIndex, WellKeyed, UniqueNames, Quiet, DistinctMatches, DistinctNames, MatchOf,
      ServerBindingInPlace;
    WalkedOn(events, requests, start.records, server, plan, i);
    SettledAfter(server, table0, bindings0, table1, bindings1, plan, i, done.owner);
    if DistinctMatches(plan, server.available) {
      KeptAfter(table0, table1, plan, server.available, owners, done.owner);
    }
    UntouchedAfter(loop.byName, done.byName, start, plan, i);
    ReportedAfter(server, start, plan, i, bindings0, loop, done, events, requests);
    ExpectedAfter(plan, i, server.available, loop, done);
  }

  /** A step that fails ends the run as the contract of the run says. */
  lemma StoppedMidway(server: Server, start: Start, plan: Plan, i: nat, table: Table, bindings: seq<Binding>,
      loop: Loop, events: seq<Event>, requests: seq<Event>, owners: seq<Pk>, error: Failure)
    requires PlanOk(plan) && i < |plan|
    requires Going(server, start, plan, i, table, bindings, loop, events, owners)
    requires NeedsNothing(start.byName, start.bindings, server, plan[i]) <==>
      StepInPlace(start.table, start.bindings, server, plan[i])
    requires StepFailed(start.records, server, plan[i], requests, error)
    requires NeedsNothing(loop.byName, bindings, server, plan[i]) ==> Quiet(requests)
    ensures RunLog(events + requests, server, plan, Some(error))
    ensures PlanInPlace(start.table, start.bindings, server, plan, |plan|) ==> Quiet(events + requests)
  {
    hide Walked, StepFailed, SettledUpTo, ExpectedHashes, KeptUpTo, UntouchedAhead, NameIndex, PathIndex,
      StepInPlace, NeedsNothing, Quiet, DistinctMatches;
    QuietConcat(events, requests);
    var all, m := events + requests, |events|;
    assert all[..m] == events && all[m..] == requests;
    assert StoppedAt(all, start.records, server, plan, i, m, error);
  }

  lemma KeptIsPresent(table: Table, plan: Plan, available: seq<Available>, owners: seq<Pk>)
    requires |owners| == |plan| && KeptUpTo(table, plan, available, owners)
    ensures !exists j | 0 <= j < |plan| && IsBlueprint(plan[j]) ::
      forall pk | pk in table :: table[pk].name != plan[j].name
  {
    forall j | 0 <= j < |plan| && IsBlueprint(plan[j])
      ensures exists pk | pk in table :: table[pk].name == plan[j].name
    {
      assert Kept(table, plan[j], available, owners[j]);
    }
  }

  /** The worker's changes disturb none of what the steps have set up. */
  lemma SameIdentityKeeps(server: Server, before: Table, after: Table, bindings: seq<Binding>, plan: Plan,
      owners: seq<Pk>)
    requires SameIdentity(before, after) && UniqueNames(before)
    ensures UniqueNames(after)
    ensures SettledUpTo(server, before, bindings, plan, |plan|) ==> SettledUpTo(server, after, bindings, plan, |plan|)
    ensures KeptUpTo(before, plan, server.available, owners) ==> KeptUpTo(after, plan, server.available, owners)
  {
    if SettledUpTo(server, before, bindings, plan, |plan|) {
      forall j | 0 <= j < |plan|
        ensures Settled(after, plan[j], server.available)
      {
        assert Settled(before, plan[j], server.available);
      }
    }
    if KeptUpTo(before, plan, server.available, owners) {
      forall j | 0 <= j < |owners|
        ensures Kept(after, plan[j], server.available, owners[j])
      {
        assert Kept(before, plan[j], server.available, owners[j]);
      }
    }
  }

  lemma ConcludedLog(log: seq<Event>, records: seq<Instance>, request: Event, server: Server, plan: Plan,
      failure: Option<Failure>)
    requires Walked(log, records, server, plan, |plan|) && Concluded(plan, server.available, request, failure)
    requires !Mutating(request)
    ensures RunLog(log + [request], server, plan, failure) && (Quiet(log + [request]) <==> Quiet(log))
  {
    hide Walked, Concluded;
    QuietConcat(log, [request]);
    assert (log + [request])[..|log|] == log;
  }

  /** The names and hashes the closing verification goes by are those of the plan. */
  lemma ExpectedNames(plan: Plan, available: seq<Available>, expected: map<string, string>, name: string)
    requires DistinctNames(plan) && ExpectedHashes(expected, plan, available, |plan|)
    requires exists j | 0 <= j < |plan| && IsBlueprint(plan[j]) :: plan[j].name == name
    ensures name in expected ==> Expects(plan, available, name, Some(expected[name]))
  {
    var j :| 0 <= j < |plan| && IsBlueprint(plan[j]) && plan[j].name == name;
  }

  lemma FaultIsConcluded(plan: Plan, available: seq<Available>, expected: map<string, string>, names: set<string>,
      records: seq<Instance>, failure: Failure)
    requires DistinctNames(plan) && ExpectedHashes(expected, plan, available, |plan|)
    requires forall n :: n in names <==> exists j | 0 <= j < |plan| && IsBlueprint(plan[j]) :: plan[j].name == n
    requires Faulty(records, names, expected, failure)
    ensures Concluded(plan, available, Listed(records), Some(failure))
  {
    hide ExpectedHashes, DistinctNames, Expects;
    match failure
    case ApplyFailed(name, e, o) =>
      ExpectedNames(plan, available, expected, name);
      var i :| 0 <= i < |records| && records[i].name == name && records[i].status == Error && records[i].lastHash == o;
      assert records[i] in records;
    case WrongHash(name, e, o) =>
      ExpectedNames(plan, available, expected, name);
      var i :| 0 <= i < |records| && records[i].name == name
        && records[i].status == Successful && records[i].lastHash == o;
      assert records[i] in records;
    case NotAllSuccessful =>
      var i :| 0 <= i < |records| && records[i].name in names && records[i].status != Successful;
      assert records[i] in records;
    case _ =>
  }

  lemma NoFaultIsConcluded(plan: Plan, available: seq<Available>, expected: map<string, string>, names: set<string>,
      records: seq<Instance>)
    requires DistinctNames(plan) && ExpectedHashes(expected, plan, available, |plan|)
    requires forall n :: n in names <==> exists j | 0 <= j < |plan| && IsBlueprint(plan[j]) :: plan[j].name == n
    requires forall n | n in names :: exists i | 0 <= i < |records| :: records[i].name == n
    requires forall i | 0 <= i < |records| && records[i].name in names ::
      records[i].status == Successful
      && (records[i].name in expected ==> records[i].lastHash == Some(expected[records[i].name]))
    ensures Concluded(plan, available, Listed(records), None)
  {
    forall j | 0 <= j < |plan| && IsBlueprint(plan[j])
      ensures MatchOf(available, plan[j].relative).Some?
      ensures exists record | record in records :: record.name == plan[j].name
      ensures forall record | record in records && record.name == plan[j].name ::
        Good(record, plan[j].name, MatchOf(available, plan[j].relative).value)
    {
      assert plan[j].name in names;
      var i :| 0 <= i < |records| && records[i].name == plan[j].name;
      assert records[i] in records;
    }
  }

  lemma RefusedAtLast(plan: Plan, available: seq<Available>)
    ensures Concluded(plan, available, Refused(false), Some(RequestFailed))
  {
  }

  /** The closing snapshot and its verification. */
  method Conclude(server: Server, plan: Plan, expected: map<string, string>)
    returns (r: Result<(), Failure>, ghost request: Event)
    requires DistinctNames(plan) && WellKeyed(server.table)
    requires SettledUpTo(server, server.table, server.bindings, plan, |plan|)
    requires ExpectedHashes(expected, plan, server.available, |plan|)
    modifies server`log
    ensures server.log == old(server.log) + [request] && !Mutating(request)
    ensures Concluded(plan, server.available, request, if r.Ok? then None else Some(r.error))
    ensures r.Ok? ==> forall j | 0 <= j < |plan| :: StepReached(server.table, server.bindings, server, plan[j])
    ensures r.Err? && r.error.MissingInstances? ==>
      exists j | 0 <= j < |plan| && IsBlueprint(plan[j]) ::
        forall pk | pk in server.table :: server.table[pk].name != plan[j].name
  {
    hide SettledUpTo, ExpectedHashes, StepReached, DistinctNames, WellKeyed, Concluded, IsListing, Faulty;
    var names := (set i | 0 <= i < |plan| :: plan[i].name) - {NAVIDROME};
    assert forall n :: n in names <==> exists j | 0 <= j < |plan| && IsBlueprint(plan[j]) :: plan[j].name == n;
    var listing := server.ListInstances();
    if listing.Err? {
      RefusedAtLast(plan, server.available);
      return Err(listing.error), Refused(false);
    }
    var records := listing.value;
    request := Listed(records);
    var failure := VerifyFinal(records, names, expected);
    if failure.Some? {
      FaultIsConcluded(plan, server.available, expected, names, records, failure.value);
      if failure.value.MissingInstances? {
        MissingFromTable(server.table, plan, records, names, expected, failure.value);
      }
      return Err(failure.value), request;
    }
    NoFaultIsConcluded(plan, server.available, expected, names, records);
    AllReached(server, server.table, server.bindings, records, names, expected, plan);
    return Ok(()), request;
  }

  lemma MissingFromTable(table: Table, plan: Plan, records: seq<Instance>, names: set<string>,
      expected: map<string, string>, failure: Failure)
    requires IsListing(records, table) && failure.MissingInstances? && Faulty(records, names, expected, failure)
    requires forall n :: n in names <==> exists j | 0 <= j < |plan| && IsBlueprint(plan[j]) :: plan[j].name == n
    ensures exists j | 0 <= j < |plan| && IsBlueprint(plan[j]) ::
      forall pk | pk in table :: table[pk].name != plan[j].name
  {
    var n :| n in failure.names;
    var j :| 0 <= j < |plan| && IsBlueprint(plan[j]) && plan[j].name == n;
    assert forall pk | pk in table :: table[pk] in records;
  }

  lemma StartIsOk(start: Start)
    requires UniqueNames(start.table) && WellKeyed(start.table) && IsListing(start.records, start.table)
    requires forall n | n in start.byName :: start.byName[n] in start.records && start.byName[n].name == n
    requires forall pk | pk in start.table ::
      start.table[pk].name in start.byName && start.byName[start.table[pk].name] == start.table[pk]
    ensures StartOk(start)
  {
  }

  /** What `Going` comes to once the plan is done. */
  lemma GoingAtEnd(server: Server, start: Start, plan: Plan, table: Table, bindings: seq<Binding>,
      loop: Loop, events: seq<Event>, owners: seq<Pk>)
    requires Going(server, start, plan, |plan|, table, bindings, loop, events, owners)
    ensures WellKeyed(table) && UniqueNames(table)
    ensures Walked(events, start.records, server, plan, |plan|)
    ensures SettledUpTo(server, table, bindings, plan, |plan|)
      && ExpectedHashes(loop.expected, plan, server.available, |plan|)
    ensures |owners| == |plan|
    ensures DistinctMatches(plan, server.available) ==> KeptUpTo(table, plan, server.available, owners)
    ensures loop.changed <==> !Quiet(events)
    ensures loop.changed <==> !PlanInPlace(start.table, start.bindings, server, plan, |plan|)
    ensures |loop.applied| == |plan| && forall j | 0 <= j < |plan| :: loop.applied[j].name == plan[j].name
    ensures loop.changed <==> exists j | 0 <= j < |plan| :: loop.applied[j].actions != []
  {
    hide NameIndex, PathIndex, Walked, SettledUpTo, ExpectedHashes, UntouchedAhead, KeptUpTo, PlanInPlace, Quiet,
      DistinctMatches;
  }

  lemma GoingFacts(server: Server, start: Start, plan: Plan, i: nat, table: Table, bindings: seq<Binding>,
      loop: Loop, events: seq<Event>, owners: seq<Pk>)
    requires i < |plan| && DistinctNames(plan) && Going(server, start, plan, i, table, bindings, loop, events, owners)
    ensures Agreement(table, loop.byName, loop.byPath)
    ensures plan[i].name in loop.byName ==> loop.byName[plan[i].name] in start.records
    ensures |owners| == i && Walked(events, start.records, server, plan, i)
    ensures forall j | 0 <= j < i && IsBlueprint(plan[j]) :: MatchOf(server.available, plan[j].relative).Some?
  {
    hide Walked, SettledUpTo, KeptUpTo, PlanInPlace, Quiet, DistinctMatches, NameIndex, PathIndex;
    CachedIsListed(loop.byName, start, plan, i);
  }

  /** The loop along the plan. */
  method WalkPlan(server: Server, plan: Plan, ghost start: Start, byName: Index, byPath: Index)
    returns (r: Result<Loop, Failure>, ghost events: seq<Event>, ghost owners: seq<Pk>, ghost tables: seq<Table>)
    requires PlanOk(plan) && StartOk(start)
    requires OnTrack(start, plan, server.available, server.table, Loop(byName, byPath, [], false, map[]),
      [Read, Listed(start.records)], [], [start.table])
    requires Going(server, start, plan, 0, server.table, server.bindings,
      Loop(byName, byPath, [], false, map[]), [Read, Listed(start.records)], [])
    modifies server`table, server`bindings, server`log, server`now
    ensures exists requests ::
      events == [Read, Listed(start.records)] + requests && server.log == old(server.log) + requests
    ensures r.Ok? ==> Going(server, start, plan, |plan|, server.table, server.bindings, r.value, events, owners)
    ensures Tracked(start.table, plan, server.available, events, owners, tables)
    ensures r.Ok? ==> OnTrack(start, plan, server.available, server.table, r.value, events, owners, tables)
    ensures r.Err? ==>
      && RunLog(events, server, plan, Some(r.error)) && !r.error.MissingInstances?
      && (PlanInPlace(start.table, start.bindings, server, plan, |plan|) ==> Quiet(events))
  {
    hide Walked, RunLog, SettledUpTo, ExpectedHashes, KeptUpTo, UntouchedAhead, StartOk, StepInPlace, StepWent,
      StepFailed, NeedsNothing, PlanInPlace, Moved, NameIndex, PathIndex, Quiet, DistinctMatches, SameIdentity,
      Agreement, Going, OnTrack, Tracked, RequestsFit, DropsOnlyMoved, PathOf, ActionsFor;
    owners, tables := [], [start.table];
    ghost var requests: seq<Event> := [];
    events := [Read, Listed(start.records)];
    assert events == [Read, Listed(start.records)] + requests;
    var loop := Loop(byName, byPath, [], false, map[]);
    for i := 0 to |plan|
      invariant events == [Read, Listed(start.records)] + requests && server.log == old(server.log) + requests
      invariant Going(server, start, plan, i, server.table, server.bindings, loop, events, owners)
      invariant OnTrack(start, plan, server.available, server.table, loop, events, owners, tables)
    {
      NeedsFromStart(server, start, plan[i]);
      GoingFacts(server, start, plan, i, server.table, server.bindings, loop, events, owners);
      label before:
      var done, more := RunStep(server, plan[i], loop.byName, loop.byPath, start.records);
      requests := requests + more;
      StepFits(start, plan, server.available, old@before(server.table), loop, events, more, owners, tables);
      if done.Err? {
        StoppedMidway(server, start, plan, i, old@before(server.table), old@before(server.bindings),
          loop, events, more, owners, done.error);
        events := events + more;
        assert events == [Read, Listed(start.records)] + requests;
        return Err(done.error), events, owners, tables;
      }
      var step := done.value;
      GoingAfter(server, start, plan, i, old@before(server.table), old@before(server.bindings),
        server.table, server.bindings, loop, step, events, more, owners);
      OnTrackAfter(server, start, plan, old@before(server.table), server.table, loop, step, events, more, owners,
        tables);
      events := events + more;
      assert events == [Read, Listed(start.records)] + requests;
      owners, tables := owners + [step.owner], tables + [server.table];
      loop := LoopAfter(loop, plan[i], step);
    }
    OnTrackIsTracked(start, plan, server.available, server.table, loop, events, owners, tables);
    return Ok(loop), events, owners, tables;
  }

  lemma OnTrackIsTracked(start: Start, plan: Plan, available: seq<Available>, table: Table, loop: Loop,
      events: seq<Event>, owners: seq<Pk>, tables: seq<Table>)
    requires OnTrack(start, plan, available, table, loop, events, owners, tables)
    ensures Tracked(start.table, plan, available, events, owners, tables)
  {
  }

  /** The closing request creates and corrects nothing, and adds nothing to the reports. */
  lemma TrackedAtEnd(start: Start, plan: Plan, available: seq<Available>, table: Table, loop: Loop,
      events: seq<Event>, request: Event, owners: seq<Pk>, tables: seq<Table>)
    requires OnTrack(start, plan, available, table, loop, events, owners, tables) && !Mutating(request)
    ensures Tracked(start.table, plan, available, events + [request], owners, tables)
    ensures tables[|tables| - 1] == table && ReportsRight(loop.applied, plan, available, events + [request])
  {
    hide Trajectory, Strict, RequestFits, PathOf, ActionsFor, PathsAhead;
    TrajectoryLength(tables, plan, available, owners);
    assert RequestFits(request, tables, plan, available, Strict(start.table, plan, available)) by {
      ReadFits(request, tables, plan, available, Strict(start.table, plan, available));
    }
    forall j | 0 <= j < |loop.applied|
      ensures ActionsFor(events + [request], plan[j].name) == ActionsFor(events, plan[j].name)
    {
      ActionsConcat(events, [request], plan[j].name);
      NoActions([request], plan[j].name);
    }
  }

  lemma ReadFits(request: Event, tables: seq<Table>, plan: Plan, available: seq<Available>, strict: bool)
    requires !Mutating(request)
    ensures RequestFits(request, tables, plan, available, strict)
  {
  }

  /** The outcome of a run, as its log's description takes it. */
  function FailureOf(r: Result<Outcome, Failure>): Option<Failure> {
    if r.Ok? then None else Some(r.error)
  }

  /** `reconcile_blueprint_instances` for a given plan. */
  method Reconcile(server: Server, plan: Plan)
    returns (r: Result<Outcome, Failure>, ghost events: seq<Event>, ghost owners: seq<Pk>, ghost tables: seq<Table>)
    requires PlanOk(plan) && WellKeyed(server.table) && UniqueNames(server.table)
    modifies server`table, server`bindings, server`log, server`now
    ensures server.log == old(server.log) + events
    // Every run: the requests are those of the steps that went well, in order, then those of
    // the one that failed or of the closing listing, and these bear out the outcome.
    ensures RunLog(events, server, plan, FailureOf(r))
    // So applies follow the plan and what was seen of earlier steps, and failures come last.
    ensures AppliesInOrder(events, plan, server.available, |plan|)
    ensures FatalIsLast(events) && (r.Err? ==> LastBearsOut(events, r.error))
    // Every run that finds the plan in place leaves the server alone.
    ensures PlanInPlace(old(server.table), old(server.bindings), server, plan, |plan|) ==> Quiet(events)
    // Every run: each step changes its own instance only; it is the one with the step's name, or
    // else one with its path, and is created only if nobody has the name, and nobody the path as
    // long as paths and files are told apart; and a record that needs no correction gets none.
    ensures Tracked(old(server.table), plan, server.available, events, owners, tables)
    ensures r.Ok? ==> |owners| == |plan| && SameIdentity(tables[|plan|], server.table)
    // Every run with distinct matches: no step undoes an earlier one, nor loses its instance.
    ensures DistinctMatches(plan, server.available) && r.Ok? ==>
      |owners| == |plan| && KeptUpTo(server.table, plan, server.available, owners)
    ensures DistinctMatches(plan, server.available) ==> !(r.Err? && r.error.MissingInstances?)
    // A normal run reaches the goal of every step, and reports changes truthfully.
    ensures r.Ok? ==>
      && WellKeyed(server.table) && UniqueNames(server.table)
      && (forall j | 0 <= j < |plan| :: StepReached(server.table, server.bindings, server, plan[j]))
      && EarlierObserved(events, plan, server.available, |plan|)
      && NoneFatal(events)
      && (r.value.changed <==> !Quiet(events))
      && (r.value.changed <==> !PlanInPlace(old(server.table), old(server.bindings), server, plan, |plan|))
      && |r.value.applied| == |plan| && ReportsRight(r.value.applied, plan, server.available, events)
      && (r.value.changed <==> exists j | 0 <= j < |plan| :: r.value.applied[j].actions != [])
  {
    hide RunLog, LastBearsOut, AppliesInOrder, EarlierObserved, NoneFatal, FatalIsLast, Tracked, ReportsRight;
    r, events, owners, tables := RunOnce(server, plan);
    RunIsSafe(events, server, plan, FailureOf(r));
    if r.Err? {
      FailureIsLast(events, server, plan, r.error);
    }
  }

  method RunOnce(server: Server, plan: Plan)
    returns (r: Result<Outcome, Failure>, ghost events: seq<Event>, ghost owners: seq<Pk>, ghost tables: seq<Table>)
    requires PlanOk(plan) && WellKeyed(server.table) && UniqueNames(server.table)
    modifies server`table, server`bindings, server`log, server`now
    ensures server.log == old(server.log) + events
    ensures RunLog(events, server, plan, FailureOf(r))
    ensures Tracked(old(server.table), plan, server.available, events, owners, tables)
    ensures r.Ok? ==> |owners| + 1 == |tables| == |plan| + 1 && SameIdentity(tables[|plan|], server.table)
    ensures PlanInPlace(old(server.table), old(server.bindings), server, plan, |plan|) ==> Quiet(events)
    ensures DistinctMatches(plan, server.available) && r.Ok? ==>
      |owners| == |plan| && KeptUpTo(server.table, plan, server.available, owners)
    ensures DistinctMatches(plan, server.available) ==> !(r.Err? && r.error.MissingInstances?)
    ensures r.Ok? ==>
      && WellKeyed(server.table) && UniqueNames(server.table)
      && (forall j | 0 <= j < |plan| :: StepReached(server.table, server.bindings, server, plan[j]))
      && (r.value.changed <==> !Quiet(events))
      && (r.value.changed <==> !PlanInPlace(old(server.table), old(server.bindings), server, plan, |plan|))
      && |r.value.applied| == |plan| && ReportsRight(r.value.applied, plan, server.available, events)
      && (r.value.changed <==> exists j | 0 <= j < |plan| :: r.value.applied[j].actions != [])
  {
    hide OnTrack, Tracked, PathCached, ReportsRight;
    hide Walked, RunLog, Concluded, SettledUpTo, ExpectedHashes, KeptUpTo, UntouchedAhead, StartOk, PlanInPlace,
      NameIndex, PathIndex, Quiet, DistinctMatches, StepReached, SameIdentity, Agreement, Going, WellKeyed,
      UniqueNames, IsListing, Mutating, Identity;
    events, owners, tables := [], [], [server.table];
    NothingTracked(server.table, plan, server.available);
    var available := server.ListAvailable();
    if available.Err? {
      RefusedAtOnce([Refused(false)], server, plan);
      return Err(available.error), [Refused(false)], [], tables;
    }
    var listing := server.ListInstances();
    if listing.Err? {
      RefusedAtOnce([Read, Refused(false)], server, plan);
      return Err(listing.error), [Read, Refused(false)], [], tables;
    }
    var records := listing.value;
    var byName, byPath := BuildIndexes(records, server.table);
    ghost var start := Start(server.table, server.bindings, byName, records);
    StartIsOk(start);
    GoingAtStart(server, start, plan, byPath);
    OnTrackAtStart(start, plan, server.available, byPath);
    var walked, requests, kept, past := WalkPlan(server, plan, start, byName, byPath);
    events, owners, tables := requests, kept, past;
    if walked.Err? {
      return Err(walked.error), events, owners, tables;
    }
    var loop := walked.value;
    GoingAtEnd(server, start, plan, server.table, server.bindings, loop, events, owners);
    label ended:
    server.Background();
    SameIdentityKeeps(server, old@ended(server.table), server.table, server.bindings, plan, owners);
    var verdict, request := Conclude(server, plan, loop.expected);
    ConcludedLog(events, start.records, request, server, plan, if verdict.Ok? then None else Some(verdict.error));
    TrackedAtEnd(start, plan, server.available, old@ended(server.table), loop, events, request, owners, tables);
    TrajectoryIs(start.table, plan, server.available, events + [request], owners, tables);
    events := events + [request];
    if verdict.Err? {
      if DistinctMatches(plan, server.available) {
        KeptIsPresent(server.table, plan, server.available, owners);
      }
      return Err(verdict.error), events, owners, tables;
    }
    return Ok(Outcome(loop.changed, loop.applied)), events, owners, tables;
  }

  lemma NothingTracked(table: Table, plan: Plan, available: seq<Available>)
    ensures Tracked(table, plan, available, [Refused(false)], [], [table])
    ensures Tracked(table, plan, available, [Read, Refused(false)], [], [table])
  {
    hide DistinctMatches, UniquePaths;
  }

  lemma TrajectoryIs(table: Table, plan: Plan, available: seq<Available>, events: seq<Event>, owners: seq<Pk>,
      tables: seq<Table>)
    requires Tracked(table, plan, available, events, owners, tables)
    ensures |tables| == |owners| + 1
  {
  }

  /** `reconcile_blueprint_instances` for the program's own plan. */
  method ReconcileAll(server: Server, flowSlugs: seq<string>)
    returns (r: Result<Outcome, Failure>, ghost events: seq<Event>, ghost owners: seq<Pk>, ghost tables: seq<Table>)
    requires FlowSlugs(flowSlugs) && WellKeyed(server.table) && UniqueNames(server.table)
    modifies server`table, server`bindings, server`log, server`now
    ensures server.log == old(server.log) + events
    ensures var plan := BlueprintPlanFor(flowSlugs);
      && RunLog(events, server, plan, FailureOf(r))
      && AppliesInOrder(events, plan, server.available, |plan|)
      && FatalIsLast(events) && (r.Err? ==> LastBearsOut(events, r.error))
      && Tracked(old(server.table), plan, server.available, events, owners, tables)
      && (PlanInPlace(old(server.table), old(server.bindings), server, plan, |plan|) ==> Quiet(events))
      && (r.Ok? ==> forall j | 0 <= j < |plan| :: StepReached(server.table, server.bindings, server, plan[j]))
    // If no fixed file's path ends a flow's, no step undoes another, and no instance is missing.
    ensures (forall k | 0 <= k < |flowSlugs| :: ApartFromFixed(flowSlugs[k])) ==>
      && !(r.Err? && r.error.MissingInstances?)
      && (r.Ok? ==> KeptUpTo(server.table, BlueprintPlanFor(flowSlugs), server.available, owners))
      && (r.Ok? ==> |owners| == |BlueprintPlanFor(flowSlugs)|)
  {
    hide RunLog, AppliesInOrder, FatalIsLast, LastBearsOut, PlanInPlace, Quiet, StepReached, KeptUpTo, ApartFromFixed,
      BlueprintPlanFor, DistinctMatches, PlanOk, WellKeyed, UniqueNames, Tracked, ReportsRight;
    PlanForIsOk(flowSlugs);
    PlanMatchesApartIff(flowSlugs);
    r, events, owners, tables := Reconcile(server, BlueprintPlanFor(flowSlugs));
  }

  // ----- Convergence -----

  /** Every blueprint the plan applies carries a hash. */
  ghost predicate AllHashed(plan: Plan, available: seq<Available>) {
    forall j | 0 <= j < |plan| && IsBlueprint(plan[j]) && MatchOf(available, plan[j].relative).Some? ::
      MatchOf(available, plan[j].relative).value.hash.Some?
  }

  /** Once every step has reached its goal, the plan is in place exactly if all hashes are known. */
  lemma ReachedIsInPlaceIffHashed(server: Server, table: Table, bindings: seq<Binding>, plan: Plan)
    requires forall j | 0 <= j < |plan| :: StepReached(table, bindings, server, plan[j])
    ensures PlanInPlace(table, bindings, server, plan, |plan|) <==> AllHashed(plan, server.available)
  {
    if AllHashed(plan, server.available) {
      forall j | 0 <= j < |plan|
        ensures StepInPlace(table, bindings, server, plan[j])
      {
        assert StepReached(table, bindings, server, plan[j]);
        if IsBlueprint(plan[j]) {
          var blueprint := MatchOf(server.available, plan[j].relative).value;
          var pk :| pk in table && AsWanted(table[pk], plan[j].name, blueprint);
          assert InPlace(table[pk], plan[j].name, blueprint);
        }
      }
    }
    if PlanInPlace(table, bindings, server, plan, |plan|) {
      forall j | 0 <= j < |plan| && IsBlueprint(plan[j]) && MatchOf(server.available, plan[j].relative).Some?
        ensures MatchOf(server.available, plan[j].relative).value.hash.Some?
      {
        assert StepInPlace(table, bindings, server, plan[j]);
      }
    }
  }

  /** A plan with one blueprint that carries no hash is never in place: every normal run applies
      it again. */
  lemma UnhashedIsNeverInPlace(server: Server, table: Table, bindings: seq<Binding>)
    requires server.available == [Available("b/10-groups.yaml", None)]
    ensures var plan := [Step("repo-auth-groups", "10-groups.yaml")];
      PlanOk(plan) && !AllHashed(plan, server.available) && !PlanInPlace(table, bindings, server, plan, 1)
  {
    var only, step := server.available[0], Step("repo-auth-groups", "10-groups.yaml");
    assert |step.name| == 16 && |NAVIDROME| == 40;
    assert ByPath(server.available) == map[only.path := only] by {
      assert server.available[..0] == [];
    }
    assert EndsWith(only.path, step.relative) by {
      assert only.path == "b/" + step.relative;
    }
    assert Matches(server.available, step.relative) == {only.path};
    assert MatchOf(server.available, step.relative) == Some(only);
    assert IsBlueprint([step][0]);
  }

  /** A run straight after a normal run issues no POST, PATCH or DELETE if every blueprint
      carries a hash; and a second normal run reports no change exactly in that case. */
  method ReconcileTwice(server: Server, plan: Plan)
    returns (first: Result<Outcome, Failure>, second: Result<Outcome, Failure>, ghost again: seq<Event>)
    requires PlanOk(plan) && WellKeyed(server.table) && UniqueNames(server.table)
    modifies server`table, server`bindings, server`log, server`now
    ensures exists earlier :: server.log == old(server.log) + earlier + again
    ensures first.Ok? && AllHashed(plan, server.available) ==> Quiet(again)
    ensures first.Ok? && second.Ok? ==> (second.value.changed <==> !Quiet(again))
    ensures first.Ok? && second.Ok? ==> (second.value.changed <==> !AllHashed(plan, server.available))
  {
    hide Tracked, ReportsRight;
    ghost var events, owners, tables;
    first, events, owners, tables := Reconcile(server, plan);
    second, again := first, [];
    if first.Ok? {
      ReachedIsInPlaceIffHashed(server, server.table, server.bindings, plan);
      second, again, owners, tables := Reconcile(server, plan);
    }
  }
}
