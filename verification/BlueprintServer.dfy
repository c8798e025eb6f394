/** The Authentik server as scripts/authentik_blueprint_sync.py sees it: a table of blueprint
    instances keyed by pk, a list of policy bindings, and the log of the requests it answers.

    Creating, patching and deleting store exactly what is sent and nobody else issues them.
    The background worker may change the outcome fields of any instance while a request is
    under way, in any manner. Any request may fail, with or without taking effect. */
module BlueprintServer {
  import opened Results

  type Pk = nat

  /** `Unfinished` stands for every status other than the two the program tests for. */
  datatype Status = Successful | Error | Unfinished

  /** An absent path is the empty one; the program treats them alike. */
  datatype Instance = Instance(
    pk: Pk, name: string, path: string, enabled: bool,
    status: Status, lastApplied: Option<int>, lastHash: Option<string>)

  datatype Available = Available(path: string, hash: Option<string>)

  datatype Binding = Binding(
    pk: Pk, policy: Pk, target: Pk, order: int,
    enabled: bool, negate: bool, failureResult: bool, timeout: int)

  datatype Failure =
    | RequestFailed
    | NotOneBlueprint(relative: string)
    | NoPolicy
    | NoTarget
    | ApplyFailed(name: string, expected: Option<string>, observed: Option<string>)
    | WrongHash(name: string, expected: Option<string>, observed: Option<string>)
    | TimedOut(name: string, expected: Option<string>, observed: Option<string>)
    | MissingInstances(names: set<string>)
    | NotAllSuccessful

  /** One request with its answer. */
  datatype Event =
    | Listed(records: seq<Instance>)
    | Got(record: Instance)
    | Created(record: Instance)
    | Patched(record: Instance)
    | Applied(name: string)
    | Deleted(name: string)
    | Read
    | BindingPatched
    | BindingCreated
    | Refused(mutating: bool)

  /** POST, PATCH and DELETE requests. */
  predicate Mutating(e: Event) {
    e.Created? || e.Patched? || e.Applied? || e.Deleted? || e.BindingPatched? || e.BindingCreated?
    || (e.Refused? && e.mutating)
  }

  ghost predicate Quiet(events: seq<Event>) {
    forall i | 0 <= i < |events| :: !Mutating(events[i])
  }

  /** The fields only the program writes. */
  function Identity(i: Instance): (Pk, string, string, bool) {
    (i.pk, i.name, i.path, i.enabled)
  }

  type Table = map<Pk, Instance>

  ghost predicate SameIdentity(before: Table, after: Table) {
    before.Keys == after.Keys && forall pk | pk in before :: Identity(after[pk]) == Identity(before[pk])
  }

  ghost predicate WellKeyed(table: Table) {
    forall pk | pk in table :: table[pk].pk == pk
  }

  ghost predicate UniqueNames(table: Table) {
    forall a, b | a in table && b in table && a != b :: table[a].name != table[b].name
  }

  ghost predicate IsListing(records: seq<Instance>, table: Table) {
    && (forall r | r in records :: r.pk in table && table[r.pk] == r)
    && (forall pk | pk in table :: table[pk] in records)
  }

  class Server {
    const available: seq<Available>
    /** The pk of the policy to bind, and of the flow-stage binding to bind it to, if the
        server has them. */
    const policy: Option<Pk>
    const target: Option<Pk>
    var table: Table
    var bindings: seq<Binding>
    var log: seq<Event>
    /** Wall clock in milliseconds. */
    var now: int

    constructor (available: seq<Available>, policy: Option<Pk>, target: Option<Pk>, table: Table,
        bindings: seq<Binding>)
      ensures this.available == available && this.policy == policy && this.target == target
      ensures this.table == table && this.bindings == bindings && log == []
    {
      this.available, this.policy, this.target := available, policy, target;
      this.table, this.bindings, this.log, this.now := table, bindings, [], 0;
    }

    /** The worker and the clock go on while a request is under way. */
    method Background()
      modifies this`table, this`now
      ensures SameIdentity(old(table), table)
      ensures WellKeyed(old(table)) ==> WellKeyed(table)
      ensures now >= old(now)
    {
      var steps: nat :| 0 <= steps;
      var passed: nat :| 0 <= passed;
      for i := 0 to steps
        invariant SameIdentity(old(table), table) && now == old(now)
        invariant WellKeyed(old(table)) ==> WellKeyed(table)
      {
        var pk: Pk :| 0 <= pk;
        var status: Status := *;
        var applied: Option<int> := *;
        var hash: Option<string> := *;
        if pk in table {
          table := table[pk := table[pk].(status := status, lastApplied := applied, lastHash := hash)];
        }
      }
      now := now + passed;
    }

    /** `sleep(2)` advances the clock by at least two seconds. */
    method Sleep()
      modifies this`table, this`now
      ensures SameIdentity(old(table), table)
      ensures WellKeyed(old(table)) ==> WellKeyed(table)
      ensures now >= old(now) + 2000
    {
      Background();
      now := now + 2000;
    }

    /** The blueprint files the server has. */
    method ListAvailable() returns (r: Result<seq<Available>, Failure>)
      modifies this`log
      ensures r.Ok? ==> r.value == available && log == old(log) + [Read]
      ensures r.Err? ==> r.error == RequestFailed && log == old(log) + [Refused(false)]
    {
      var refused: bool := *;
      log := log + [if refused then Refused(false) else Read];
      return if refused then Err(RequestFailed) else Ok(available);
    }

    /** A snapshot of the table, in any order. */
    method ListInstances() returns (r: Result<seq<Instance>, Failure>)
      requires WellKeyed(table)
      modifies this`log
      ensures r.Ok? ==> IsListing(r.value, table) && log == old(log) + [Listed(r.value)]
      ensures r.Err? ==> r.error == RequestFailed && log == old(log) + [Refused(false)]
    {
      var refused: bool := *;
      if refused {
        log := log + [Refused(false)];
        return Err(RequestFailed);
      }
      var records: seq<Instance> := [];
      var left := table.Keys;
      while left != {}
        invariant left <= table.Keys
        invariant forall pk | pk in table && pk !in left :: table[pk] in records
        invariant forall i | 0 <= i < |records| :: exists pk | pk in table :: table[pk] == records[i]
        decreases left
      {
        var pk :| pk in left;
        records := records + [table[pk]];
        left := left - {pk};
      }
      log := log + [Listed(records)];
      return Ok(records);
    }

    method CreateInstance(name: string, path: string) returns (r: Result<Instance, Failure>)
      requires WellKeyed(table)
      modifies this`table, this`log, this`now
      ensures r.Ok? ==>
        && r.value.pk !in old(table) && table.Keys == old(table).Keys + {r.value.pk}
        && table[r.value.pk] == r.value && Identity(r.value) == (r.value.pk, name, path, true)
        && (forall k | k in old(table) :: Identity(table[k]) == Identity(old(table)[k]))
        && WellKeyed(table)
        && log == old(log) + [Created(r.value)]
      ensures r.Err? ==> r.error == RequestFailed && log == old(log) + [Refused(true)]
    {
      Background();
      var refused: bool := *;
      var status: Status := *;
      var applied: Option<int> := *;
      var hash: Option<string> := *;
      var pk := FreshPk(table.Keys);
      var lost: bool := *;
      if !refused || lost {
        table := table[pk := Instance(pk, name, path, true, status, applied, hash)];
      }
      if refused {
        log := log + [Refused(true)];
        return Err(RequestFailed);
      }
      log := log + [Created(table[pk])];
      return Ok(table[pk]);
    }

    method PatchInstance(pk: Pk, name: string, path: string) returns (r: Result<Instance, Failure>)
      requires WellKeyed(table)
      modifies this`table, this`log, this`now
      ensures r.Ok? ==>
        && pk in old(table) && table.Keys == old(table).Keys
        && table[pk] == r.value && Identity(r.value) == (pk, name, path, true)
        && (forall k | k in old(table) && k != pk :: Identity(table[k]) == Identity(old(table)[k]))
        && WellKeyed(table)
        && log == old(log) + [Patched(r.value)]
      ensures r.Err? ==> r.error == RequestFailed && log == old(log) + [Refused(true)]
    {
      Background();
      var refused: bool := *;
      var lost: bool := *;
      if pk in table && (!refused || lost) {
        table := table[pk := table[pk].(name := name, path := path, enabled := true)];
      }
      if refused || pk !in table {
        log := log + [Refused(true)];
        return Err(RequestFailed);
      }
      log := log + [Patched(table[pk])];
      return Ok(table[pk]);
    }

    /** Ask the worker to apply an instance; what comes of it is up to the worker. */
    method ApplyInstance(pk: Pk) returns (r: Result<(), Failure>)
      requires WellKeyed(table)
      modifies this`table, this`log, this`now
      ensures r.Ok? ==> pk in old(table) && SameIdentity(old(table), table) && WellKeyed(table)
      ensures r.Ok? ==> log == old(log) + [Applied(old(table)[pk].name)]
      ensures r.Err? ==> r.error == RequestFailed && log == old(log) + [Refused(true)]
    {
      Background();
      var refused: bool := *;
      if refused || pk !in table {
        log := log + [Refused(true)];
        return Err(RequestFailed);
      }
      log := log + [Applied(table[pk].name)];
      return Ok(());
    }

    method GetInstance(pk: Pk) returns (r: Result<Instance, Failure>)
      requires WellKeyed(table)
      modifies this`table, this`log, this`now
      ensures r.Ok? ==>
        && pk in table && r.value == table[pk] && r.value.pk == pk
        && SameIdentity(old(table), table) && WellKeyed(table)
        && log == old(log) + [Got(r.value)]
      ensures r.Err? ==> r.error == RequestFailed && log == old(log) + [Refused(false)]
      ensures now >= old(now)
    {
      Background();
      var refused: bool := *;
      if refused || pk !in table {
        log := log + [Refused(false)];
        return Err(RequestFailed);
      }
      log := log + [Got(table[pk])];
      return Ok(table[pk]);
    }

    method DeleteInstance(pk: Pk) returns (r: Result<(), Failure>)
      requires WellKeyed(table)
      modifies this`table, this`log, this`now
      ensures r.Ok? ==>
        && pk in old(table) && table.Keys == old(table).Keys - {pk}
        && (forall k | k in table :: Identity(table[k]) == Identity(old(table)[k]))
        && WellKeyed(table)
        && log == old(log) + [Deleted(old(table)[pk].name)]
      ensures r.Err? ==> r.error == RequestFailed && log == old(log) + [Refused(true)]
    {
      Background();
      var refused: bool := *;
      var lost: bool := *;
      if refused || pk !in table {
        if lost {
          table := table - {pk};
        }
        log := log + [Refused(true)];
        return Err(RequestFailed);
      }
      log := log + [Deleted(table[pk].name)];
      table := table - {pk};
      return Ok(());
    }

    /** The policy list, the flow export and the binding list, in the server's fixed order. */
    method ReadBindings() returns (r: Result<seq<Binding>, Failure>)
      requires WellKeyed(table)
      modifies this`table, this`log, this`now
      ensures r.Ok? ==> r.value == bindings && SameIdentity(old(table), table) && WellKeyed(table)
      ensures r.Ok? ==> log == old(log) + [Read]
      ensures r.Err? ==> r.error == RequestFailed && log == old(log) + [Refused(false)]
    {
      Background();
      var refused: bool := *;
      log := log + [if refused then Refused(false) else Read];
      return if refused then Err(RequestFailed) else Ok(bindings);
    }

    method PatchBinding(pk: Pk, desired: Binding) returns (r: Result<(), Failure>)
      requires WellKeyed(table)
      modifies this`table, this`bindings, this`log, this`now
      ensures r.Ok? ==> SameIdentity(old(table), table) && WellKeyed(table)
      ensures r.Ok? ==> bindings == Overwritten(old(bindings), pk, desired)
      ensures r.Ok? ==> log == old(log) + [BindingPatched]
      ensures r.Err? ==> r.error == RequestFailed && log == old(log) + [Refused(true)]
    {
      Background();
      var refused: bool := *;
      var lost: bool := *;
      if !refused || lost {
        bindings := Overwritten(bindings, pk, desired);
      }
      log := log + [if refused then Refused(true) else BindingPatched];
      return if refused then Err(RequestFailed) else Ok(());
    }

    /** A new binding may turn up anywhere in the list. */
    method CreateBinding(desired: Binding) returns (r: Result<(), Failure>, ghost at: nat)
      requires WellKeyed(table)
      modifies this`table, this`bindings, this`log, this`now
      ensures r.Ok? ==> SameIdentity(old(table), table) && WellKeyed(table)
      ensures r.Ok? ==> at <= |old(bindings)| && exists pk ::
        bindings == old(bindings)[..at] + [desired.(pk := pk)] + old(bindings)[at..]
      ensures r.Ok? ==> log == old(log) + [BindingCreated]
      ensures r.Err? ==> r.error == RequestFailed && log == old(log) + [Refused(true)]
    {
      Background();
      var refused: bool := *;
      var lost: bool := *;
      var pk: Pk :| 0 <= pk;
      var wish: nat :| 0 <= wish;
      var place: nat := if wish <= |bindings| then wish else |bindings|;
      at := place;
      if !refused || lost {
        bindings := bindings[..place] + [desired.(pk := pk)] + bindings[place..];
      }
      log := log + [if refused then Refused(true) else BindingCreated];
      return if refused then Err(RequestFailed) else Ok(()), at;
    }
  }

  function Overwritten(bindings: seq<Binding>, pk: Pk, desired: Binding): (r: seq<Binding>)
    ensures |r| == |bindings|
    ensures forall i | 0 <= i < |r| :: r[i] == if bindings[i].pk == pk then desired.(pk := pk) else bindings[i]
  {
    seq(|bindings|, i requires 0 <= i < |bindings| =>
      if bindings[i].pk == pk then desired.(pk := pk) else bindings[i])
  }

  /** A pk the table does not hold. */
  method FreshPk(used: set<Pk>) returns (pk: Pk)
    ensures pk !in used
  {
    pk := 0;
    var left := used;
    while left != {}
      invariant forall k | k in used :: k in left || k < pk
      decreases left
    {
      var k :| k in left;
      left := left - {k};
      pk := if k >= pk then k + 1 else pk;
    }
  }
}
