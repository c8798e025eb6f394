/** stacks/public/music/reconciler/reconciler.py: the plan that brings Navidrome's users in
    line with Authentik's, and its best-effort execution. */
module Navidrome {
  import opened Results
  import opened Text

  // ----- Records -----

  datatype AuthentikUser = AuthentikUser(username: string, email: string, isActive: bool, groups: seq<string>)

  /** A Navidrome record holds any of three fields for being disabled and any of two for
      being an administrator. */
  datatype User = User(
    id: int, userName: string, email: string,
    isDisabled: Option<bool>, disabled: Option<bool>, isActive: Option<bool>,
    isAdmin: Option<bool>, admin: Option<bool>)

  datatype DisabledField = IsDisabled | Disabled | IsActive
  datatype AdminField = IsAdmin | Admin

  /** What is sent: name, email, one admin field and, for an update, one disabled field. */
  datatype Payload = Payload(
    userName: string, email: string, adminField: AdminField, adminValue: bool,
    disabledField: Option<DisabledField>, disabledValue: bool)

  datatype Operation =
    | Create(username: string, payload: Payload)
    | Update(username: string, userId: int, payload: Payload)

  /** The ASCII characters that `strip` removes. */
  predicate IsSpace(c: char) {
    c == ' ' || 9 <= c as int <= 13 || 28 <= c as int <= 31
  }

  function Clean(s: string): string {
    StripRight(StripLeft(s, IsSpace), IsSpace)
  }

  lemma CleanTwice(s: string)
    ensures Clean(Clean(s)) == Clean(s)
  {
    StripLeftPart(s, IsSpace);
    StripRightPart(StripLeft(s, IsSpace), IsSpace);
  }

  // ----- The planner -----

  function ResolveDisabled(u: User): (DisabledField, bool) {
    if u.isDisabled.Some? then (IsDisabled, u.isDisabled.value)
    else if u.disabled.Some? then (Disabled, u.disabled.value)
    else if u.isActive.Some? then (IsActive, !u.isActive.value)
    else (IsDisabled, false)
  }

  function ResolveAdmin(u: User): (AdminField, bool) {
    if u.isAdmin.Some? then (IsAdmin, u.isAdmin.value)
    else if u.admin.Some? then (Admin, u.admin.value)
    else (IsAdmin, false)
  }

  function UpdatePayload(u: User, email: string, disabled: bool): Payload {
    var field := ResolveDisabled(u).0;
    var (adminField, isAdmin) := ResolveAdmin(u);
    Payload(Clean(u.userName), email, adminField, isAdmin, Some(field),
      if field == IsActive then !disabled else disabled)
  }

  predicate ShouldEnable(a: AuthentikUser) {
    a.isActive && "media" in a.groups
  }

  /** What one Authentik user asks for, given the Navidrome user of that name. */
  function OperationFor(a: AuthentikUser, existing: Option<User>): Option<Operation> {
    var username, email := Clean(a.username), Clean(a.email);
    if username == "" then None
    else if ShouldEnable(a) then
      match existing
      case None => Some(Create(username, Payload(username, email, IsAdmin, false, None, false)))
      case Some(u) =>
        if ResolveDisabled(u).1 || Clean(u.email) != email
        then Some(Update(username, u.id, UpdatePayload(u, email, false)))
        else None
    else
      match existing
      case None => None
      case Some(u) =>
        if !ResolveDisabled(u).1 then Some(Update(username, u.id, UpdatePayload(u, email, true))) else None
  }

  /** The record's first field for being disabled says that it is. */
  predicate IsDisabledNow(u: User) {
    || u.isDisabled == Some(true)
    || (u.isDisabled.None? && (u.disabled == Some(true) || (u.disabled.None? && u.isActive == Some(false))))
  }

  predicate IsAdminNow(u: User) {
    u.isAdmin == Some(true) || (u.isAdmin.None? && u.admin == Some(true))
  }

  /** A stored user is updated exactly if it is not as the list has it, and then only in name,
      address and in being disabled; a create asks for an enabled user who is no administrator. */
  lemma OperationSays(a: AuthentikUser, u: User)
    requires Clean(a.username) != ""
    ensures OperationFor(a, Some(u)).None? <==> var wanted := a.isActive && "media" in a.groups;
      IsDisabledNow(u) == !wanted && (wanted ==> Clean(u.email) == Clean(a.email))
    ensures var asked := OperationFor(a, Some(u)); asked.Some? ==>
      && asked.value.Update? && asked.value.username == Clean(a.username) && asked.value.userId == u.id
      && var v := Overlay(u, asked.value.payload);
         && v.id == u.id && v.userName == Clean(u.userName) && v.email == Clean(a.email)
         && (IsDisabledNow(v) <==> !(a.isActive && "media" in a.groups)) && IsAdminNow(v) == IsAdminNow(u)
    ensures OperationFor(a, None) == if !(a.isActive && "media" in a.groups) then None
      else Some(Create(Clean(a.username),
        Payload(Clean(a.username), Clean(a.email), IsAdmin, false, None, false)))
  {
    ResolvedRight(u);
  }

  lemma ResolvedRight(u: User)
    ensures ResolveDisabled(u).1 == IsDisabledNow(u) && ResolveAdmin(u).1 == IsAdminNow(u)
  {
  }

  /** The Navidrome users by clean, non-empty name; of two with one name the later counts. */
  function UsernameMap(users: seq<User>): map<string, User> {
    if users == [] then map[]
    else
      var last := users[|users| - 1];
      var before := UsernameMap(users[..|users| - 1]);
      if Clean(last.userName) != "" then before[Clean(last.userName) := last] else before
  }

  function Lookup(users: seq<User>, username: string): Option<User> {
    var byName := UsernameMap(users);
    if username in byName then Some(byName[username]) else None
  }

  /** The user looked up is the last one of that clean name. */
  lemma {:induction false} LookupIsLast(users: seq<User>, name: string)
    requires name != ""
    ensures var found := Lookup(users, name);
      if found.None? then forall k | 0 <= k < |users| :: Clean(users[k].userName) != name
      else exists k | 0 <= k < |users| && users[k] == found.value && Clean(users[k].userName) == name ::
        forall l | k < l < |users| :: Clean(users[l].userName) != name
    decreases |users|
  {
    hide Clean;
    if users != [] {
      var n := |users| - 1;
      LookupIsLast(users[..n], name);
      if Clean(users[n].userName) == name {
        assert users[n] == Lookup(users, name).value;
      } else if Lookup(users, name).Some? {
        var k :| 0 <= k < n && users[..n][k] == Lookup(users, name).value && Clean(users[..n][k].userName) == name
          && forall l | k < l < n :: Clean(users[..n][l].userName) != name;
        assert users[k] == Lookup(users, name).value;
        assert forall l | k < l < n :: users[l] == users[..n][l];
      } else {
        assert forall k | 0 <= k < n :: users[k] == users[..n][k];
      }
    }
  }

  function Optional(op: Option<Operation>): seq<Operation> {
    if op.Some? then [op.value] else []
  }

  function Plan(authentik: seq<AuthentikUser>, users: seq<User>): seq<Operation> {
    if authentik == [] then []
    else Optional(OperationFor(authentik[0], Lookup(users, Clean(authentik[0].username)))) + Plan(authentik[1..], users)
  }

  lemma {:induction false} PlanSnoc(authentik: seq<AuthentikUser>, a: AuthentikUser, users: seq<User>)
    ensures Plan(authentik + [a], users) ==
      Plan(authentik, users) + Optional(OperationFor(a, Lookup(users, Clean(a.username))))
    decreases |authentik|
  {
    hide Lookup, OperationFor, Clean, Optional;
    if authentik == [] {
      assert ([a])[1..] == [];
    } else {
      assert (authentik + [a])[1..] == authentik[1..] + [a];
      PlanSnoc(authentik[1..], a, users);
    }
  }

  /** How many of the Authentik users ask for something. */
  function Asking(authentik: seq<AuthentikUser>, users: seq<User>): nat {
    if authentik == [] then 0
    else
      var a := authentik[|authentik| - 1];
      Asking(authentik[..|authentik| - 1], users)
      + (if OperationFor(a, Lookup(users, Clean(a.username))).Some? then 1 else 0)
  }

  /** The plan has one operation for each user who asks for something, in the order of the users. */
  lemma {:induction false} PlanInOrder(authentik: seq<AuthentikUser>, users: seq<User>, i: nat)
    requires i <= |authentik|
    ensures |Plan(authentik, users)| == Asking(authentik, users)
    ensures i < |authentik| ==>
      var a, k := authentik[i], Asking(authentik[..i], users);
      var asked := OperationFor(a, Lookup(users, Clean(a.username)));
      asked.Some? ==> k < |Plan(authentik, users)| && Plan(authentik, users)[k] == asked.value
    decreases |authentik|
  {
    hide OperationFor, Lookup, Clean;
    if authentik != [] {
      var n := |authentik| - 1;
      var front := authentik[..n];
      assert authentik == front + [authentik[n]];
      PlanSnoc(front, authentik[n], users);
      PlanInOrder(front, users, if i < n then i else n);
      if i < n {
        assert front[..i] == authentik[..i];
      }
    }
  }

  method PlanReconciliation(authentik: seq<AuthentikUser>, users: seq<User>) returns (operations: seq<Operation>)
    ensures operations == Plan(authentik, users)
  {
    operations := [];
    var byName := UsernameMap(users);
    for i := 0 to |authentik|
      invariant operations == Plan(authentik[..i], users)
    {
      var a := authentik[i];
      var username := Clean(a.username);
      PlanSnoc(authentik[..i], a, users);
      assert authentik[..i + 1] == authentik[..i] + [a];
      var op := OperationFor(a, if username in byName then Some(byName[username]) else None);
      if op.Some? {
        operations := operations + [op.value];
      }
    }
    assert authentik[..|authentik|] == authentik;
  }

  // ----- The store -----

  /** The payload laid over a record: its fields replace the record's. */
  function Overlay(u: User, p: Payload): User {
    User(u.id, p.userName, p.email,
      if p.disabledField == Some(IsDisabled) then Some(p.disabledValue) else u.isDisabled,
      if p.disabledField == Some(Disabled) then Some(p.disabledValue) else u.disabled,
      if p.disabledField == Some(IsActive) then Some(p.disabledValue) else u.isActive,
      if p.adminField == IsAdmin then Some(p.adminValue) else u.isAdmin,
      if p.adminField == Admin then Some(p.adminValue) else u.admin)
  }

  /** A record the store may make out of a create request: enabled, in any shape. */
  ghost predicate CreatedFrom(u: User, p: Payload) {
    u.userName == p.userName && u.email == p.email && !IsDisabledNow(u) && IsAdminNow(u) == p.adminValue
  }

  function Replaced(users: seq<User>, id: int, p: Payload): (r: seq<User>)
    ensures |r| == |users|
    ensures forall i | 0 <= i < |r| :: r[i] == if users[i].id == id then Overlay(users[i], p) else users[i]
  {
    seq(|users|, i requires 0 <= i < |users| => if users[i].id == id then Overlay(users[i], p) else users[i])
  }

  /** One operation that takes effect. A new record may turn up anywhere in the list. */
  ghost predicate Effect(op: Operation, before: seq<User>, after: seq<User>) {
    match op
    case Create(_, payload) =>
      exists at, u | 0 <= at <= |before| && CreatedFrom(u, payload) && FreshId(before, u.id) ::
        after == before[..at] + [u] + before[at..]
    case Update(_, id, payload) => after == Replaced(before, id, payload)
  }

  ghost predicate FreshId(users: seq<User>, id: int) {
    forall i | 0 <= i < |users| :: users[i].id != id
  }

  /** A round: each operation in turn takes effect or fails, as `done` says. */
  ghost predicate Round(ops: seq<Operation>, done: seq<bool>, before: seq<User>, after: seq<User>)
    requires |done| == |ops|
    decreases |ops|
  {
    if ops == [] then after == before
    else if done[0] then
      exists middle :: Effect(ops[0], before, middle) && Round(ops[1..], done[1..], middle, after)
    else Round(ops[1..], done[1..], before, after)
  }

  /** The operations that failed, in order. */
  function Failed(ops: seq<Operation>, done: seq<bool>): seq<Operation>
    requires |done| == |ops|
  {
    if ops == [] then []
    else (if done[0] then [] else [ops[0]]) + Failed(ops[1..], done[1..])
  }

  /** Ids and clean names tell the stored users apart. */
  ghost predicate Distinct(users: seq<User>) {
    forall i, j | 0 <= i < j < |users| ::
      users[i].id != users[j].id
      && (Clean(users[i].userName) != "" ==> Clean(users[i].userName) != Clean(users[j].userName))
  }

  ghost predicate DistinctAuthentik(authentik: seq<AuthentikUser>) {
    forall i, j | 0 <= i < j < |authentik| && Clean(authentik[i].username) != "" ::
      Clean(authentik[i].username) != Clean(authentik[j].username)
  }

  // ----- Looking users up -----

  lemma {:induction false} LookupIff(users: seq<User>, username: string, u: User)
    requires Distinct(users) && username != ""
    ensures Lookup(users, username) == Some(u) <==> u in users && Clean(u.userName) == username
    decreases |users|
  {
    if users != [] {
      var front, last := users[..|users| - 1], users[|users| - 1];
      LookupIff(front, username, u);
      assert users == front + [last];
    }
  }

  lemma LookupNone(users: seq<User>, username: string)
    requires Distinct(users) && username != ""
    ensures Lookup(users, username).None? <==> forall u | u in users :: Clean(u.userName) != username
  {
    var found := Lookup(users, username);
    if found.Some? {
      LookupIff(users, username, found.value);
    }
    forall u | u in users && found.None?
      ensures Clean(u.userName) != username
    {
      LookupIff(users, username, u);
    }
  }

  /** Lists with the same users of a given name look that name up alike. */
  lemma LookupAlike(before: seq<User>, after: seq<User>, username: string)
    requires Distinct(before) && Distinct(after) && username != ""
    requires forall u :: u in before && Clean(u.userName) == username <==> u in after && Clean(u.userName) == username
    ensures Lookup(after, username) == Lookup(before, username)
  {
    var found := Lookup(before, username);
    match found {
      case None =>
        LookupNone(before, username);
        LookupNone(after, username);
      case Some(u) =>
        LookupIff(before, username, u);
        LookupIff(after, username, u);
    }
  }

  // ----- One operation -----

  /** The operation is what user `a` asks for, given the stored user of that name. */
  ghost predicate AskedFor(op: Operation, a: AuthentikUser, users: seq<User>) {
    OperationFor(a, Lookup(users, Clean(a.username))) == Some(op)
  }

  /** Laying an update over the record it was made from satisfies the request for good. */
  lemma UpdateSatisfies(a: AuthentikUser, u: User, disabled: bool)
    requires Clean(a.username) != "" && disabled == !ShouldEnable(a)
    ensures var v := Overlay(u, UpdatePayload(u, Clean(a.email), disabled));
      OperationFor(a, Some(v)) == None && Clean(v.userName) == Clean(u.userName)
  {
    CleanTwice(a.email);
    CleanTwice(u.userName);
  }

  /** An update asked for names the stored user of the name, and would satisfy the request. */
  lemma AskedUpdate(a: AuthentikUser, op: Operation, users: seq<User>) returns (k: nat)
    requires Distinct(users) && AskedFor(op, a, users) && op.Update?
    ensures Clean(a.username) != "" && k < |users| && users[k].id == op.userId
    ensures Clean(users[k].userName) == Clean(a.username) == Clean(Overlay(users[k], op.payload).userName)
    ensures OperationFor(a, Some(Overlay(users[k], op.payload))) == None
  {
    hide Overlay, Distinct, Clean;
    var name := Clean(a.username);
    var u := Lookup(users, name).value;
    LookupIff(users, name, u);
    k :| 0 <= k < |users| && users[k] == u;
    UpdateSatisfies(a, u, !ShouldEnable(a));
  }

  lemma ReplacedOne(before: seq<User>, k: nat, p: Payload)
    requires Distinct(before) && k < |before|
    requires Clean(Overlay(before[k], p).userName) == Clean(before[k].userName)
    ensures Replaced(before, before[k].id, p) == before[k := Overlay(before[k], p)]
    ensures Distinct(Replaced(before, before[k].id, p))
  {
    hide Clean;
    forall i | 0 <= i < |before|
      ensures Replaced(before, before[k].id, p)[i] == if i == k then Overlay(before[k], p) else before[i]
    {
      assert i != k ==> before[i].id != before[k].id;
    }
  }

  lemma UpdateEffect(a: AuthentikUser, op: Operation, before: seq<User>, after: seq<User>)
    requires Distinct(before) && AskedFor(op, a, before) && op.Update? && Effect(op, before, after)
    ensures Distinct(after)
    ensures OperationFor(a, Lookup(after, Clean(a.username))) == None
    ensures forall n | n != "" && n != Clean(a.username) :: Lookup(after, n) == Lookup(before, n)
  {
    hide Distinct, Lookup, Clean, OperationFor, Overlay, Replaced;
    var name := Clean(a.username);
    var k := AskedUpdate(a, op, before);
    ReplacedOne(before, k, op.payload);
    LookupIff(after, name, after[k]);
    forall n | n != "" && n != name
      ensures Lookup(after, n) == Lookup(before, n)
    {
      OneChangedLookup(before, after, k, n);
    }
  }

  /** Changing one user's record, but not the clean name, leaves all other names looked up alike. */
  lemma OneChangedLookup(before: seq<User>, after: seq<User>, k: nat, n: string)
    requires Distinct(before) && Distinct(after) && n != "" && k < |before| == |after|
    requires forall i | 0 <= i < |before| && i != k :: after[i] == before[i]
    requires Clean(before[k].userName) != n && Clean(after[k].userName) != n
    ensures Lookup(after, n) == Lookup(before, n)
  {
    hide Lookup, Clean;
    forall x
      ensures x in before && Clean(x.userName) == n <==> x in after && Clean(x.userName) == n
    {
      if x in before && Clean(x.userName) == n {
        var i :| 0 <= i < |before| && before[i] == x;
        assert after[i] == x;
      }
      if x in after && Clean(x.userName) == n {
        var i :| 0 <= i < |after| && after[i] == x;
        assert before[i] == x;
      }
    }
    LookupAlike(before, after, n);
  }

  lemma CreateEffect(a: AuthentikUser, op: Operation, before: seq<User>, after: seq<User>)
    requires Distinct(before) && AskedFor(op, a, before) && op.Create? && Effect(op, before, after)
    ensures Distinct(after)
    ensures OperationFor(a, Lookup(after, Clean(a.username))) == None
    ensures forall n | n != "" && n != Clean(a.username) :: Lookup(after, n) == Lookup(before, n)
  {
    hide Lookup, Clean, Distinct;
    var name := Clean(a.username);
    CleanTwice(a.username);
    CleanTwice(a.email);
    var at, u :| 0 <= at <= |before| && CreatedFrom(u, op.payload) && FreshId(before, u.id)
      && after == before[..at] + [u] + before[at..];
    NobodyNamed(before, name);
    InsertedIsDistinct(before, at, u);
    forall n | n != ""
      ensures if n == name then Lookup(after, n) == Some(u) else Lookup(after, n) == Lookup(before, n)
    {
      LookupInserted(before, at, u, n);
    }
  }

  lemma NobodyNamed(users: seq<User>, name: string)
    requires Distinct(users) && name != "" && Lookup(users, name).None?
    ensures forall u | u in users :: Clean(u.userName) != name
  {
    LookupNone(users, name);
  }

  lemma InsertedIsDistinct(users: seq<User>, at: nat, u: User)
    requires Distinct(users) && at <= |users| && FreshId(users, u.id)
    requires forall x | x in users :: Clean(x.userName) != Clean(u.userName)
    ensures Distinct(users[..at] + [u] + users[at..])
  {
    var after := users[..at] + [u] + users[at..];
    forall i | 0 <= i < |after|
      ensures after[i] == if i < at then users[i] else if i == at then u else users[i - 1]
    {
    }
    forall i, j | 0 <= i < j < |after|
      ensures after[i].id != after[j].id
      ensures Clean(after[i].userName) != "" ==> Clean(after[i].userName) != Clean(after[j].userName)
    {
      if i != at && j != at {
        var i0, j0 := if i < at then i else i - 1, if j < at then j else j - 1;
        assert users[i0].id != users[j0].id;
      } else {
        var other := if i == at then after[j] else after[i];
        assert other in users;
      }
    }
  }

  // ----- Convergence under partial failure -----

  /** The plan for a list of users depends on no other users' records. */
  lemma {:induction false} PlanAlike(authentik: seq<AuthentikUser>, before: seq<User>, after: seq<User>)
    requires forall a | a in authentik && Clean(a.username) != "" ::
      Lookup(after, Clean(a.username)) == Lookup(before, Clean(a.username))
    ensures Plan(authentik, after) == Plan(authentik, before)
    decreases |authentik|
  {
    if authentik != [] {
      assert authentik[0] in authentik;
      PlanAlike(authentik[1..], before, after);
    }
  }

  ghost predicate Unlisted(authentik: seq<AuthentikUser>, name: string) {
    forall a | a in authentik :: Clean(a.username) != name
  }

  /** The first user's part of a round: `middle` is the store once it is over. */
  lemma FirstPart(authentik: seq<AuthentikUser>, done: seq<bool>, before: seq<User>, after: seq<User>)
    returns (middle: seq<User>, rest: seq<bool>)
    requires authentik != [] && Distinct(before)
    requires |done| == |Plan(authentik, before)| && Round(Plan(authentik, before), done, before, after)
    ensures Distinct(middle)
    ensures forall n | n != "" && n != Clean(authentik[0].username) :: Lookup(middle, n) == Lookup(before, n)
    ensures var left := OperationFor(authentik[0], Lookup(middle, Clean(authentik[0].username)));
      && |rest| == |Plan(authentik[1..], before)| && Round(Plan(authentik[1..], before), rest, middle, after)
      && Failed(Plan(authentik, before), done) == Optional(left) + Failed(Plan(authentik[1..], before), rest)
  {
    var a := authentik[0];
    var ops := Plan(authentik, before);
    var asked := OperationFor(a, Lookup(before, Clean(a.username)));
    if asked.None? {
      assert ops == Plan(authentik[1..], before);
      return before, done;
    }
    var op := asked.value;
    assert ops == [op] + Plan(authentik[1..], before);
    assert ops[1..] == Plan(authentik[1..], before);
    rest := done[1..];
    if !done[0] {
      return before, rest;
    }
    middle :| Effect(op, before, middle) && Round(ops[1..], rest, middle, after);
    if op.Create? {
      CreateEffect(a, op, before, middle);
    } else {
      UpdateEffect(a, op, before, middle);
    }
  }

  /** After a round, the next plan is exactly the operations that failed, in order; users whom
      the list does not name are looked up as before. */
  lemma {:induction false} RoundLeavesFailures(
    authentik: seq<AuthentikUser>, done: seq<bool>, before: seq<User>, after: seq<User>)
    requires DistinctAuthentik(authentik) && Distinct(before)
    requires |done| == |Plan(authentik, before)| && Round(Plan(authentik, before), done, before, after)
    ensures Distinct(after)
    ensures Plan(authentik, after) == Failed(Plan(authentik, before), done)
    ensures forall n | n != "" && Unlisted(authentik, n) :: Lookup(after, n) == Lookup(before, n)
    decreases |authentik|
  {
    hide Distinct, Effect, OperationFor, Lookup, Round, Failed, Clean;
    if authentik != [] {
      var a, others := authentik[0], authentik[1..];
      var name := Clean(a.username);
      var middle, rest := FirstPart(authentik, done, before, after);
      forall b | b in others && Clean(b.username) != ""
        ensures Lookup(middle, Clean(b.username)) == Lookup(before, Clean(b.username))
      {
        var j :| 0 <= j < |others| && others[j] == b;
        assert authentik[j + 1] == b;
      }
      PlanAlike(others, before, middle);
      RoundLeavesFailures(others, rest, middle, after);
      if name != "" {
        assert Unlisted(others, name);
      } else {
        NamelessAsksNothing(a, middle, after);
      }
      forall n | n != "" && Unlisted(authentik, n)
        ensures Lookup(after, n) == Lookup(before, n)
      {
        assert Unlisted(others, n) && a in authentik;
      }
    } else {
      NothingPlanned(done, before, after);
    }
  }

  lemma NothingPlanned(done: seq<bool>, before: seq<User>, after: seq<User>)
    requires done == [] && Round([], done, before, after)
    ensures after == before && Failed([], done) == []
  {
  }

  lemma NamelessAsksNothing(a: AuthentikUser, before: seq<User>, after: seq<User>)
    requires Clean(a.username) == ""
    ensures OperationFor(a, Lookup(before, "")) == OperationFor(a, Lookup(after, "")) == None
  {
  }

  /** So a round in which nothing fails is followed by an empty plan. */
  lemma {:induction false} NothingFailed(ops: seq<Operation>, done: seq<bool>)
    requires |done| == |ops|
    ensures Failed(ops, done) == [] <==> forall i | 0 <= i < |done| :: done[i]
    decreases |ops|
  {
    if ops != [] {
      NothingFailed(ops[1..], done[1..]);
      assert forall i | 0 <= i < |done[1..]| :: done[1..][i] == done[i + 1];
      if forall i | 0 <= i < |done[1..]| :: done[1..][i] {
        assert forall i | 1 <= i < |done| :: done[i] == done[1..][i - 1];
      }
    }
  }

  lemma {:induction false} EmptyPlanIff(authentik: seq<AuthentikUser>, users: seq<User>)
    ensures Plan(authentik, users) == [] <==>
      forall a | a in authentik :: OperationFor(a, Lookup(users, Clean(a.username))) == None
    decreases |authentik|
  {
    if authentik != [] {
      EmptyPlanIff(authentik[1..], users);
      assert authentik[0] in authentik;
      assert authentik == [authentik[0]] + authentik[1..];
    }
  }

  /** Two Authentik users with one clean name want different things of the one Navidrome user. */
  predicate Conflict(a: AuthentikUser, b: AuthentikUser) {
    && Clean(a.username) == Clean(b.username) != ""
    && (ShouldEnable(a) != ShouldEnable(b) || (ShouldEnable(a) && Clean(a.email) != Clean(b.email)))
  }

  /** With a conflict, no store is ever at rest. */
  lemma ConflictNeverSettles(authentik: seq<AuthentikUser>, a: AuthentikUser, b: AuthentikUser, users: seq<User>)
    requires a in authentik && b in authentik && Conflict(a, b)
    ensures Plan(authentik, users) != []
  {
    EmptyPlanIff(authentik, users);
  }

  predicate Named(users: seq<User>, name: string) {
    exists u | u in users :: Clean(u.userName) == name
  }

  /** A store that holds one enabled record for each name somebody enabled has. */
  function Resting(authentik: seq<AuthentikUser>): seq<User> {
    if authentik == [] then []
    else
      var a, rest := authentik[0], Resting(authentik[1..]);
      var name := Clean(a.username);
      if name == "" || !ShouldEnable(a) || Named(rest, name) then rest
      else rest + [User(|rest|, name, Clean(a.email), Some(false), None, None, None, None)]
  }

  /** The record is enabled and stands for the user. */
  predicate StandsFor(u: User, a: AuthentikUser) {
    && ShouldEnable(a) && Clean(a.username) == Clean(u.userName) != "" && Clean(a.email) == Clean(u.email)
    && !ResolveDisabled(u).1
  }

  lemma {:induction false} RestingIsDistinct(authentik: seq<AuthentikUser>)
    ensures var users := Resting(authentik); Distinct(users) && forall u | u in users :: 0 <= u.id < |users|
    decreases |authentik|
  {
    if authentik != [] {
      RestingIsDistinct(authentik[1..]);
      var a, rest := authentik[0], Resting(authentik[1..]);
      if Resting(authentik) != rest {
        CleanTwice(a.username);
        RestingGrows(rest, Resting(authentik)[|rest|]);
      }
    }
  }

  lemma RestingGrows(rest: seq<User>, u: User)
    requires Distinct(rest) && (forall x | x in rest :: 0 <= x.id < |rest|)
    requires u.id == |rest| && !Named(rest, Clean(u.userName))
    ensures Distinct(rest + [u]) && forall x | x in rest + [u] :: 0 <= x.id < |rest| + 1
  {
    hide Clean;
    forall i | 0 <= i < |rest|
      ensures rest[i].id != u.id && Clean(rest[i].userName) != Clean(u.userName)
    {
      assert rest[i] in rest;
    }
  }

  lemma {:induction false} RestingStands(authentik: seq<AuthentikUser>)
    ensures forall u | u in Resting(authentik) :: exists a | a in authentik :: StandsFor(u, a)
    ensures forall a | a in authentik && ShouldEnable(a) && Clean(a.username) != "" ::
      Named(Resting(authentik), Clean(a.username))
    decreases |authentik|
  {
    hide Clean;
    if authentik != [] {
      var a, others := authentik[0], authentik[1..];
      var users, rest := Resting(authentik), Resting(others);
      RestingStands(others);
      assert authentik == [a] + others;
      CleanTwice(a.username);
      CleanTwice(a.email);
      forall u | u in users
        ensures exists b | b in authentik :: StandsFor(u, b)
      {
        if u in rest {
          var b :| b in others && StandsFor(u, b);
        } else {
          assert StandsFor(u, a);
        }
      }
      forall b | b in authentik && ShouldEnable(b) && Clean(b.username) != ""
        ensures Named(users, Clean(b.username))
      {
        if Named(rest, Clean(b.username)) {
          var u :| u in rest && Clean(u.userName) == Clean(b.username);
          assert u in users;
        } else {
          assert users[|rest|] in users;
        }
      }
    }
  }

  /** In that store nobody asks for anything, unless there is a conflict. */
  lemma RestingIsAtRest(authentik: seq<AuthentikUser>)
    requires forall a, b | a in authentik && b in authentik :: !Conflict(a, b)
    ensures Distinct(Resting(authentik)) && Plan(authentik, Resting(authentik)) == []
  {
    hide Clean, Distinct, Resting, Plan, Lookup, ResolveDisabled;
    var users := Resting(authentik);
    RestingIsDistinct(authentik);
    RestingStands(authentik);
    EmptyPlanIff(authentik, users);
    forall a | a in authentik
      ensures OperationFor(a, Lookup(users, Clean(a.username))) == None
    {
      var name := Clean(a.username);
      if name != "" {
        LookupNone(users, name);
        if Lookup(users, name).Some? {
          var u := Lookup(users, name).value;
          LookupIff(users, name, u);
          var b :| b in authentik && StandsFor(u, b);
          assert !Conflict(a, b);
        } else if ShouldEnable(a) {
          assert Named(users, name);
        }
      }
    }
  }

  /** So the reconciler can come to rest exactly when no two users of one clean name want
      different things. */
  lemma SettlesIffNoConflict(authentik: seq<AuthentikUser>)
    ensures (exists users :: Distinct(users) && Plan(authentik, users) == []) <==>
      forall a, b | a in authentik && b in authentik :: !Conflict(a, b)
  {
    if forall a, b | a in authentik && b in authentik :: !Conflict(a, b) {
      RestingIsAtRest(authentik);
    } else {
      var a, b :| a in authentik && b in authentik && Conflict(a, b);
      forall users
        ensures Plan(authentik, users) != []
      {
        ConflictNeverSettles(authentik, a, b, users);
      }
    }
  }

  /** Two such users: one name but for a blank, and two addresses. */
  lemma ConflictAtWork(users: seq<User>)
    ensures var a, b := AuthentikUser("ann", "a@x", true, ["media"]), AuthentikUser(" ann", "b@x", true, ["media"]);
      Conflict(a, b) && Plan([a, b], users) != []
  {
    var a, b := AuthentikUser("ann", "a@x", true, ["media"]), AuthentikUser(" ann", "b@x", true, ["media"]);
    assert StripLeft(" ann", IsSpace) == StripLeft("ann", IsSpace) == "ann";
    assert "a@x"[0] != "b@x"[0];
    ConflictNeverSettles([a, b], a, b, users);
  }

  // ----- What no sequence of rounds does -----

  ghost predicate UniqueIds(users: seq<User>) {
    forall i, j | 0 <= i < j < |users| :: users[i].id != users[j].id
  }

  /** `v` is what became of `u`: the same user, as much an administrator as before, and the very
      same record if the user was not listed. */
  ghost predicate Descends(u: User, v: User, listed: iset<string>) {
    && v.id == u.id && Clean(v.userName) == Clean(u.userName)
    && ResolveAdmin(v) == ResolveAdmin(u)
    && (Clean(u.userName) !in listed ==> v == u)
  }

  /** Every user lives on, and whoever is new is listed and no administrator. */
  ghost predicate Preserved(before: seq<User>, after: seq<User>, listed: iset<string>) {
    && (forall u | u in before :: exists v | v in after :: Descends(u, v, listed))
    && (forall v | v in after :: (exists u | u in before :: Descends(u, v, listed))
          || (!ResolveAdmin(v).1 && Clean(v.userName) in listed))
  }

  ghost function Listed(authentik: seq<AuthentikUser>): iset<string> {
    iset a | a in authentik :: Clean(a.username)
  }

  lemma PreservedTransitive(a: seq<User>, b: seq<User>, c: seq<User>, first: iset<string>, second: iset<string>)
    requires Preserved(a, b, first) && Preserved(b, c, second)
    ensures Preserved(a, c, first + second)
  {
    var both := first + second;
    forall u | u in a
      ensures exists w | w in c :: Descends(u, w, both)
    {
      var v :| v in b && Descends(u, v, first);
      var w :| w in c && Descends(v, w, second);
      assert Descends(u, w, both);
    }
    forall w | w in c
      ensures (exists u | u in a :: Descends(u, w, both)) || (!ResolveAdmin(w).1 && Clean(w.userName) in both)
    {
      if v :| v in b && Descends(v, w, second) {
        if u :| u in a && Descends(u, v, first) {
          assert Descends(u, w, both);
        }
      }
    }
  }

  /** Every operation of a plan is made for a listed user: an update from the stored record
      with its id, a creation of a user who is no administrator. */
  ghost predicate WellMade(op: Operation, start: seq<User>, listed: iset<string>) {
    match op
    case Create(_, p) => !p.adminValue && Clean(p.userName) in listed
    case Update(_, id, p) => exists u, email, disabled | u in start :: MadeFrom(p, id, u, email, disabled, listed)
  }

  ghost predicate MadeFrom(p: Payload, id: int, u: User, email: string, disabled: bool, listed: iset<string>) {
    u.id == id && p == UpdatePayload(u, email, disabled) && Clean(u.userName) in listed
  }

  lemma {:induction false} LookupIsStored(users: seq<User>, name: string)
    requires Lookup(users, name).Some?
    ensures var u := Lookup(users, name).value; u in users && Clean(u.userName) == name
    decreases |users|
  {
    if users != [] {
      var front := users[..|users| - 1];
      if Lookup(front, name).Some? {
        LookupIsStored(front, name);
      }
    }
  }

  lemma {:induction false} PlanIsWellMade(authentik: seq<AuthentikUser>, users: seq<User>, listed: iset<string>)
    requires forall a | a in authentik :: Clean(a.username) in listed
    ensures forall op | op in Plan(authentik, users) :: WellMade(op, users, listed)
    decreases |authentik|
  {
    if authentik != [] {
      var a := authentik[0];
      assert a in authentik;
      PlanIsWellMade(authentik[1..], users, listed);
      var existing := Lookup(users, Clean(a.username));
      var asked := OperationFor(a, existing);
      if asked.Some? && asked.value.Update? {
        LookupIsStored(users, Clean(a.username));
        var op, email := asked.value, Clean(a.email);
        assert MadeFrom(op.payload, op.userId, existing.value, email, !ShouldEnable(a), listed);
      }
      CleanTwice(a.username);
    }
  }

  lemma CreatePreserves(p: Payload, before: seq<User>, at: nat, u: User, listed: iset<string>)
    requires !p.adminValue && Clean(p.userName) in listed
    requires at <= |before| && CreatedFrom(u, p) && FreshId(before, u.id) && UniqueIds(before)
    ensures var after := before[..at] + [u] + before[at..]; UniqueIds(after) && Preserved(before, after, listed)
  {
    var after := before[..at] + [u] + before[at..];
    CreatedIsListed(p, u, listed);
    InsertedMembers(before, at, u);
    InsertedUnique(before, at, u);
    hide Descends, CreatedFrom, ResolveAdmin, Clean, UniqueIds;
    forall x | x in before
      ensures x in after && Descends(x, x, listed)
    {
      DescendsItself(x, listed);
    }
  }

  lemma InsertedMembers<T>(s: seq<T>, at: nat, u: T)
    requires at <= |s|
    ensures forall x :: x in s[..at] + [u] + s[at..] <==> x in s || x == u
  {
    assert s == s[..at] + s[at..];
  }

  lemma InsertedUnique(users: seq<User>, at: nat, u: User)
    requires at <= |users| && UniqueIds(users) && FreshId(users, u.id)
    ensures UniqueIds(users[..at] + [u] + users[at..])
  {
    var after := users[..at] + [u] + users[at..];
    forall i | 0 <= i < |after|
      ensures after[i] == if i < at then users[i] else if i == at then u else users[i - 1]
    {
    }
  }

  lemma CreatedIsListed(p: Payload, u: User, listed: iset<string>)
    requires CreatedFrom(u, p) && !p.adminValue && Clean(p.userName) in listed
    ensures !ResolveAdmin(u).1 && Clean(u.userName) in listed
  {
  }

  lemma DescendsItself(u: User, listed: iset<string>)
    ensures Descends(u, u, listed)
  {
  }

  lemma Descendant(start: seq<User>, before: seq<User>, s: User, listed: iset<string>) returns (w: User)
    requires s in start && Preserved(start, before, listed)
    ensures w in before && Descends(s, w, listed) && w.id == s.id
  {
    w :| w in before && Descends(s, w, listed);
  }

  lemma OverlayDescends(p: Payload, id: int, s: User, w: User, email: string, disabled: bool, listed: iset<string>)
    requires MadeFrom(p, id, s, email, disabled, listed) && Descends(s, w, listed)
    ensures w.id == id && Descends(w, Overlay(w, p), listed)
  {
    CleanTwice(s.userName);
  }

  lemma PointwisePreserved(before: seq<User>, after: seq<User>, listed: iset<string>)
    requires |after| == |before| && forall i | 0 <= i < |before| :: Descends(before[i], after[i], listed)
    ensures Preserved(before, after, listed)
  {
    hide Descends;
    forall u | u in before
      ensures exists v | v in after :: Descends(u, v, listed)
    {
      var i :| 0 <= i < |before| && before[i] == u;
      assert after[i] in after;
    }
    forall v | v in after
      ensures exists u | u in before :: Descends(u, v, listed)
    {
      var i :| 0 <= i < |after| && after[i] == v;
      assert before[i] in before;
    }
  }

  lemma UpdatePreserves(p: Payload, id: int, s: User, email: string, disabled: bool,
      start: seq<User>, before: seq<User>, listed: iset<string>)
    requires s in start && MadeFrom(p, id, s, email, disabled, listed)
    requires UniqueIds(before) && Preserved(start, before, listed)
    ensures var after := Replaced(before, id, p); UniqueIds(after) && Preserved(before, after, listed)
  {
    hide Preserved, Descends, MadeFrom;
    var after := Replaced(before, id, p);
    var w := Descendant(start, before, s, listed);
    OverlayDescends(p, id, s, w, email, disabled, listed);
    forall i | 0 <= i < |before|
      ensures Descends(before[i], after[i], listed)
    {
      if before[i].id == id {
        assert before[i] == w;
      } else {
        DescendsItself(before[i], listed);
      }
    }
    SameIds(before, after, id, p);
    PointwisePreserved(before, after, listed);
  }

  lemma SameIds(before: seq<User>, after: seq<User>, id: int, p: Payload)
    requires after == Replaced(before, id, p)
    ensures UniqueIds(before) ==> UniqueIds(after)
  {
    forall i | 0 <= i < |before|
      ensures after[i].id == before[i].id
    {
    }
  }

  /** One operation, made from the users at the start of the round, preserves the users. */
  lemma EffectPreserves(op: Operation, start: seq<User>, before: seq<User>, after: seq<User>, listed: iset<string>)
    requires WellMade(op, start, listed) && Effect(op, before, after)
    requires UniqueIds(before) && Preserved(start, before, listed)
    ensures UniqueIds(after) && Preserved(before, after, listed)
  {
    hide Preserved, UniqueIds, MadeFrom;
    match op
    case Create(_, p) =>
      var at, u :| 0 <= at <= |before| && CreatedFrom(u, p) && FreshId(before, u.id)
        && after == before[..at] + [u] + before[at..];
      CreatePreserves(p, before, at, u, listed);
    case Update(_, id, p) =>
      var s, email, disabled :| s in start && MadeFrom(p, id, s, email, disabled, listed);
      UpdatePreserves(p, id, s, email, disabled, start, before, listed);
  }

  lemma SelfPreserved(users: seq<User>, listed: iset<string>)
    ensures Preserved(users, users, listed)
  {
    forall u | u in users
      ensures Descends(u, u, listed)
    {
    }
  }

  lemma {:induction false} RoundPreserves(
    ops: seq<Operation>, done: seq<bool>, start: seq<User>, before: seq<User>, after: seq<User>, listed: iset<string>)
    requires |done| == |ops| && Round(ops, done, before, after)
    requires forall op | op in ops :: WellMade(op, start, listed)
    requires UniqueIds(before) && Preserved(start, before, listed)
    ensures UniqueIds(after) && Preserved(before, after, listed)
    decreases |ops|
  {
    hide Preserved, WellMade, Effect, UniqueIds;
    if ops == [] {
      SelfPreserved(before, listed);
    } else if done[0] {
      var middle :| Effect(ops[0], before, middle) && Round(ops[1..], done[1..], middle, after);
      EffectPreserves(ops[0], start, before, middle, listed);
      PreservedTransitive(start, before, middle, listed, listed);
      assert listed + listed == listed;
      RoundPreserves(ops[1..], done[1..], start, middle, after, listed);
      PreservedTransitive(before, middle, after, listed, listed);
    } else {
      RoundPreserves(ops[1..], done[1..], start, before, after, listed);
    }
  }

  /** A run of the service: one round after another, each planned from a fresh Authentik list. */
  ghost predicate Rounds(lists: seq<seq<AuthentikUser>>, done: seq<seq<bool>>, states: seq<seq<User>>) {
    && |done| == |lists| && |states| == |lists| + 1
    && forall i | 0 <= i < |lists| :: var ops := Plan(lists[i], states[i]);
         |done[i]| == |ops| && Round(ops, done[i], states[i], states[i + 1])
  }

  ghost function EverListed(lists: seq<seq<AuthentikUser>>): iset<string> {
    iset list, n | list in lists && n in Listed(list) :: n
  }

  /** However many rounds there are, whatever the lists say and whichever operations fail:
      nobody's administrator flag changes, nobody is lost, nobody who is never listed is
      touched, and whoever is new is listed and no administrator. */
  lemma {:induction false} RoundsPreserve(lists: seq<seq<AuthentikUser>>, done: seq<seq<bool>>, states: seq<seq<User>>)
    requires Rounds(lists, done, states) && UniqueIds(states[0])
    ensures UniqueIds(states[|lists|]) && Preserved(states[0], states[|lists|], EverListed(lists))
    decreases |lists|
  {
    hide Preserved, UniqueIds;
    if lists == [] {
      SelfPreserved(states[0], EverListed(lists));
    } else {
      var n := |lists| - 1;
      var earlier := lists[..n];
      assert Rounds(earlier, done[..n], states[..n + 1]) by {
        forall i | 0 <= i < n
          ensures var ops := Plan(earlier[i], states[..n + 1][i]);
            |done[..n][i]| == |ops| && Round(ops, done[..n][i], states[..n + 1][i], states[..n + 1][i + 1])
        {
          assert earlier[i] == lists[i] && states[..n + 1][i] == states[i] && states[..n + 1][i + 1] == states[i + 1];
        }
      }
      RoundsPreserve(earlier, done[..n], states[..n + 1]);
      var listed := Listed(lists[n]);
      PlanIsWellMade(lists[n], states[n], listed);
      SelfPreserved(states[n], listed);
      RoundPreserves(Plan(lists[n], states[n]), done[n], states[n], states[n], states[n + 1], listed);
      PreservedTransitive(states[0], states[n], states[n + 1], EverListed(earlier), listed);
      EverListedSnoc(earlier, lists[n]);
      assert lists == earlier + [lists[n]];
    }
  }

  lemma EverListedSnoc(lists: seq<seq<AuthentikUser>>, last: seq<AuthentikUser>)
    ensures EverListed(lists + [last]) == EverListed(lists) + Listed(last)
  {
    forall n
      ensures n in EverListed(lists + [last]) <==> n in EverListed(lists) + Listed(last)
    {
      if n in Listed(last) {
        assert last in lists + [last];
      }
      if n in EverListed(lists) {
        var list :| list in lists && n in Listed(list);
        assert list in lists + [last];
      }
    }
  }

  // ----- A round in which nothing fails -----

  lemma {:induction false} LookupReplaced(users: seq<User>, id: int, p: Payload, n: string)
    requires n != "" && forall u | u in users && u.id == id :: Clean(u.userName) == Clean(p.userName)
    ensures var found := Lookup(users, n);
      Lookup(Replaced(users, id, p), n) ==
        if found.Some? && found.value.id == id then Some(Overlay(found.value, p)) else found
    decreases |users|
  {
    hide Clean, Overlay;
    if users != [] {
      var front, last := users[..|users| - 1], users[|users| - 1];
      LookupReplaced(front, id, p, n);
      assert Replaced(users, id, p)[..|users| - 1] == Replaced(front, id, p);
      assert last in users;
      OverlayNames(last, p);
    }
  }

  lemma OverlayNames(u: User, p: Payload)
    ensures Overlay(u, p).userName == p.userName && Overlay(u, p).id == u.id
  {
  }

  lemma {:induction false} LookupInserted(users: seq<User>, at: nat, u: User, n: string)
    requires n != "" && at <= |users|
    ensures var found, after := Lookup(users, n), Lookup(users[..at] + [u] + users[at..], n);
      && (Clean(u.userName) != n ==> after == found)
      && (Clean(u.userName) == n ==> after == Some(u) || (found.Some? && after == found))
    decreases |users|
  {
    hide Clean;
    var after := users[..at] + [u] + users[at..];
    if at == |users| {
      assert after[..|after| - 1] == users;
    } else {
      var front := users[..|users| - 1];
      LookupInserted(front, at, u, n);
      assert after[..|after| - 1] == front[..at] + [u] + front[at..];
    }
  }

  /** `v` is the same user as `u`, with the same field to be disabled by. */
  predicate Follows(u: User, v: User) {
    v.id == u.id && Clean(v.userName) == Clean(u.userName) && ResolveDisabled(v).0 == ResolveDisabled(u).0
  }

  /** The stored user of `a`'s name is still the same user, and either as at the start of the
      round or such that `a` has nothing left to ask for. */
  ghost predicate Underway(a: AuthentikUser, start: seq<User>, users: seq<User>) {
    var before, now := Lookup(start, Clean(a.username)), Lookup(users, Clean(a.username));
    && (before.Some? ==> now.Some? && Follows(before.value, now.value))
    && (now == before || OperationFor(a, now) == None)
  }

  /** What one of two users without a conflict asks for satisfies the other, too. */
  lemma UpdateSatisfiesBoth(a: AuthentikUser, b: AuthentikUser, u: User, v: User)
    requires Clean(a.username) == Clean(b.username) != "" && !Conflict(a, b) && Follows(u, v)
    ensures var w := Overlay(v, UpdatePayload(u, Clean(b.email), !ShouldEnable(b)));
      Follows(u, w) && OperationFor(a, Some(w)) == None
  {
    CleanTwice(b.email);
    CleanTwice(u.userName);
  }

  /** An operation one user asked for satisfies all users of that name, and is nothing to others. */
  lemma EffectSettles(a: AuthentikUser, b: AuthentikUser, op: Operation, start: seq<User>, users: seq<User>,
      after: seq<User>, listed: iset<string>)
    requires AskedFor(op, b, start) && Effect(op, users, after) && !Conflict(a, b) && Clean(a.username) != ""
    requires UniqueIds(users) && Preserved(start, users, listed) && Underway(a, start, users)
    ensures Underway(a, start, after)
    ensures if Clean(b.username) == Clean(a.username) then OperationFor(a, Lookup(after, Clean(a.username))) == None
      else Lookup(after, Clean(a.username)) == Lookup(users, Clean(a.username))
  {
    match op
    case Create(_, _) => CreateSettles(a, b, op, start, users, after);
    case Update(_, _, _) => UpdateSettles(a, b, op, start, users, after, listed);
  }

  lemma CreateSettles(a: AuthentikUser, b: AuthentikUser, op: Operation, start: seq<User>, users: seq<User>,
      after: seq<User>)
    requires AskedFor(op, b, start) && op.Create? && Effect(op, users, after)
    requires !Conflict(a, b) && Clean(a.username) != "" && Underway(a, start, users)
    ensures Underway(a, start, after)
    ensures if Clean(b.username) == Clean(a.username) then OperationFor(a, Lookup(after, Clean(a.username))) == None
      else Lookup(after, Clean(a.username)) == Lookup(users, Clean(a.username))
  {
    hide Lookup, Clean, Follows;
    CleanTwice(b.username);
    CleanTwice(b.email);
    var at, u :| 0 <= at <= |users| && CreatedFrom(u, op.payload) && FreshId(users, u.id)
      && after == users[..at] + [u] + users[at..];
    LookupInserted(users, at, u, Clean(a.username));
  }

  /** The records with the id of a stored user are those that became of that user. */
  lemma SameIdSameName(start: seq<User>, users: seq<User>, u: User, listed: iset<string>)
    requires UniqueIds(users) && Preserved(start, users, listed) && u in start
    ensures forall v | v in users && v.id == u.id :: Clean(v.userName) == Clean(u.userName)
  {
    hide Clean;
    var w :| w in users && Descends(u, w, listed);
    forall v | v in users && v.id == u.id
      ensures v == w
    {
    }
  }

  lemma UpdateSettles(a: AuthentikUser, b: AuthentikUser, op: Operation, start: seq<User>, users: seq<User>,
      after: seq<User>, listed: iset<string>)
    requires AskedFor(op, b, start) && op.Update? && Effect(op, users, after)
    requires !Conflict(a, b) && Clean(a.username) != ""
    requires UniqueIds(users) && Preserved(start, users, listed) && Underway(a, start, users)
    ensures Underway(a, start, after)
    ensures if Clean(b.username) == Clean(a.username) then OperationFor(a, Lookup(after, Clean(a.username))) == None
      else Lookup(after, Clean(a.username)) == Lookup(users, Clean(a.username))
  {
    hide Lookup, Clean, UniqueIds, Preserved, Overlay, Conflict, Replaced;
    var name, other := Clean(a.username), Clean(b.username);
    var u := Lookup(start, other).value;
    var p := UpdatePayload(u, Clean(b.email), !ShouldEnable(b));
    LookupIsStored(start, other);
    SameIdSameName(start, users, u, listed);
    CleanTwice(u.userName);
    LookupReplaced(users, u.id, p, name);
    if Lookup(users, name).Some? {
      LookupIsStored(users, name);
    }
    if other == name {
      UpdateSatisfiesBoth(a, b, u, Lookup(users, name).value);
    }
  }

  ghost predicate Accountable(op: Operation, authentik: seq<AuthentikUser>, users: seq<User>) {
    exists a | a in authentik :: AskedFor(op, a, users)
  }

  lemma {:induction false} RoundSettles(a: AuthentikUser, authentik: seq<AuthentikUser>, ops: seq<Operation>,
      done: seq<bool>, start: seq<User>, users: seq<User>, after: seq<User>)
    requires Clean(a.username) != "" && forall b | b in authentik :: !Conflict(a, b)
    requires |done| == |ops| && Round(ops, done, users, after) && forall i | 0 <= i < |done| :: done[i]
    requires forall op | op in ops :: WellMade(op, start, Listed(authentik))
    requires forall op | op in ops :: Accountable(op, authentik, start)
    requires UniqueIds(users) && Preserved(start, users, Listed(authentik)) && Underway(a, start, users)
    ensures Underway(a, start, after)
    ensures (exists op | op in ops :: AskedFor(op, a, start)) ==>
      OperationFor(a, Lookup(after, Clean(a.username))) == None
    ensures OperationFor(a, Lookup(users, Clean(a.username))) == None ==>
      OperationFor(a, Lookup(after, Clean(a.username))) == None
    decreases |ops|
  {
    hide Clean, Lookup, OperationFor, Conflict, WellMade, Effect, UniqueIds, Preserved, Underway, Listed;
    if ops != [] {
      var listed, name := Listed(authentik), Clean(a.username);
      var op := ops[0];
      var middle :| Effect(op, users, middle) && Round(ops[1..], done[1..], middle, after);
      assert op in ops && forall o | o in ops[1..] :: o in ops;
      var b :| b in authentik && AskedFor(op, b, start);
      EffectPreserves(op, start, users, middle, listed);
      PreservedTransitive(start, users, middle, listed, listed);
      assert listed + listed == listed;
      EffectSettles(a, b, op, start, users, middle, listed);
      RoundSettles(a, authentik, ops[1..], done[1..], start, middle, after);
      if AskedFor(op, a, start) {
        SameOperationSameName(a, b, op, start);
      }
      assert forall o | o in ops :: o == op || o in ops[1..];
    }
  }

  lemma SameOperationSameName(a: AuthentikUser, b: AuthentikUser, op: Operation, users: seq<User>)
    requires AskedFor(op, a, users) && AskedFor(op, b, users)
    ensures Clean(a.username) == Clean(b.username)
  {
  }

  lemma {:induction false} PlanIsAskedFor(authentik: seq<AuthentikUser>, users: seq<User>)
    ensures forall op | op in Plan(authentik, users) :: Accountable(op, authentik, users)
    ensures forall a, op | a in authentik && AskedFor(op, a, users) :: op in Plan(authentik, users)
    decreases |authentik|
  {
    hide OperationFor, Lookup, Clean;
    if authentik != [] {
      var others := authentik[1..];
      PlanIsAskedFor(others, users);
      assert authentik == [authentik[0]] + others;
      forall op | op in Plan(authentik, users)
        ensures Accountable(op, authentik, users)
      {
        if op in Plan(others, users) {
          var a :| a in others && AskedFor(op, a, users);
        } else {
          assert AskedFor(op, authentik[0], users);
        }
      }
    }
  }

  lemma NothingUnderway(a: AuthentikUser, users: seq<User>)
    ensures Underway(a, users, users)
  {
  }

  /** A round in which nothing fails leaves nothing to do exactly when there is no conflict,
      whatever the names in the list and in the store. */
  lemma CleanRoundSettlesIff(
    authentik: seq<AuthentikUser>, done: seq<bool>, before: seq<User>, after: seq<User>)
    requires UniqueIds(before)
    requires |done| == |Plan(authentik, before)| && Round(Plan(authentik, before), done, before, after)
    requires forall i | 0 <= i < |done| :: done[i]
    ensures Plan(authentik, after) == [] <==> forall a, b | a in authentik && b in authentik :: !Conflict(a, b)
  {
    hide Clean, Lookup, Conflict, Round, Plan, Preserved, Underway, UniqueIds;
    if forall a, b | a in authentik && b in authentik :: !Conflict(a, b) {
      var ops, listed := Plan(authentik, before), Listed(authentik);
      PlanIsWellMade(authentik, before, listed);
      PlanIsAskedFor(authentik, before);
      SelfPreserved(before, listed);
      forall a | a in authentik
        ensures OperationFor(a, Lookup(after, Clean(a.username))) == None
      {
        if Clean(a.username) != "" {
          NothingUnderway(a, before);
          RoundSettles(a, authentik, ops, done, before, before, after);
          if OperationFor(a, Lookup(before, Clean(a.username))).Some? {
            assert AskedFor(OperationFor(a, Lookup(before, Clean(a.username))).value, a, before);
          }
        }
      }
      EmptyPlanIff(authentik, after);
    } else {
      var a, b :| a in authentik && b in authentik && Conflict(a, b);
      ConflictNeverSettles(authentik, a, b, after);
    }
  }

  // ----- The service -----

  lemma {:induction false} RoundSnoc(
    ops: seq<Operation>, done: seq<bool>, before: seq<User>, middle: seq<User>, op: Operation, ok: bool,
    after: seq<User>)
    requires |done| == |ops| && Round(ops, done, before, middle)
    requires if ok then Effect(op, middle, after) else after == middle
    ensures Round(ops + [op], done + [ok], before, after)
    decreases |ops|
  {
    if ops == [] {
      assert ([op])[1..] == [] && ([ok])[1..] == [];
      assert Round([], [], after, after);
    } else {
      assert (ops + [op])[1..] == ops[1..] + [op] && (done + [ok])[1..] == done[1..] + [ok];
      if done[0] {
        var next :| Effect(ops[0], before, next) && Round(ops[1..], done[1..], next, middle);
        RoundSnoc(ops[1..], done[1..], next, middle, op, ok, after);
      } else {
        RoundSnoc(ops[1..], done[1..], before, middle, op, ok, after);
      }
    }
  }

  method AnyFlag() returns (flag: Option<bool>) {
    var present: bool := *;
    var value: bool := *;
    return if present then Some(value) else None;
  }

  lemma EmptyRound(users: seq<User>)
    ensures Round([], [], users, users)
  {
  }

  /** The operations with their outcomes. */
  function Tried(ops: seq<Operation>, done: seq<bool>): seq<(Operation, bool)>
    requires |done| == |ops|
  {
    seq(|ops|, i requires 0 <= i < |ops| => (ops[i], done[i]))
  }

  lemma NothingTried()
    ensures Tried([], []) == []
  {
  }

  lemma TriedSnoc(ops: seq<Operation>, done: seq<bool>, op: Operation, ok: bool)
    requires |done| == |ops|
    ensures Tried(ops + [op], done + [ok]) == Tried(ops, done) + [(op, ok)]
  {
  }

  class Store {
    var users: seq<User>
    /** The requests so far, each with whether it took effect. */
    var log: seq<(Operation, bool)>

    /** Either takes effect, or fails and leaves the users alone. */
    method Execute(op: Operation) returns (ok: bool)
      modifies this
      ensures if ok then Effect(op, old(users), users) else users == old(users)
      ensures log == old(log) + [(op, ok)]
    {
      ok := *;
      if !ok {
        log := log + [(op, false)];
        return;
      }
      match op
      case Create(_, p) =>
        var id: int := *;
        var a := AnyFlag();
        var b := AnyFlag();
        var c := AnyFlag();
        var d := AnyFlag();
        var e := AnyFlag();
        var u := User(id, p.userName, p.email, a, b, c, d, e);
        var wish: int := *;
        var at := if 0 <= wish <= |users| then wish else |users|;
        var clash := exists i | 0 <= i < |users| :: users[i].id == u.id;
        if clash || ResolveDisabled(u).1 || ResolveAdmin(u).1 != p.adminValue {
          // The store makes up no such record; it refuses instead.
          log := log + [(op, false)];
          ok := false;
          return;
        }
        log := log + [(op, true)];
        users := users[..at] + [u] + users[at..];
        assert CreatedFrom(u, p) && FreshId(old(users), u.id) && users == old(users)[..at] + [u] + old(users)[at..];
      case Update(_, id, p) =>
        log := log + [(op, true)];
        users := Replaced(users, id, p);
    }

    /** `sync_once`: plan, then try every operation, going on after failures. */
    method SyncOnce(authentik: seq<AuthentikUser>) returns (ghost done: seq<bool>)
      modifies this
      // Every operation of the plan is tried, in order.
      ensures |done| == |Plan(authentik, old(users))| && log == old(log) + Tried(Plan(authentik, old(users)), done)
      ensures Round(Plan(authentik, old(users)), done, old(users), users)
      ensures Distinct(old(users)) && DistinctAuthentik(authentik) ==>
        Distinct(users) && Plan(authentik, users) == Failed(Plan(authentik, old(users)), done)
      ensures UniqueIds(old(users)) && (forall i | 0 <= i < |done| :: done[i]) ==>
        (Plan(authentik, users) == [] <==> forall a, b | a in authentik && b in authentik :: !Conflict(a, b))
    {
      hide Round, Plan, Effect, Distinct, DistinctAuthentik, Failed, Tried, UniqueIds, Conflict;
      NothingTried();
      var operations := PlanReconciliation(authentik, users);
      done := [];
      EmptyRound(users);
      for i := 0 to |operations|
        invariant |done| == i && Round(operations[..i], done, old(users), users)
        invariant log == old(log) + Tried(operations[..i], done)
      {
        label before:
        var ok := Execute(operations[i]);
        RoundSnoc(operations[..i], done, old(users), old@before(users), operations[i], ok, users);
        assert operations[..i + 1] == operations[..i] + [operations[i]];
        TriedSnoc(operations[..i], done, operations[i], ok);
        done := done + [ok];
      }
      assert operations[..|operations|] == operations;
      if Distinct(old(users)) && DistinctAuthentik(authentik) {
        RoundLeavesFailures(authentik, done, old(users), users);
      }
      if UniqueIds(old(users)) && forall i | 0 <= i < |done| :: done[i] {
        CleanRoundSettlesIff(authentik, done, old(users), users);
      }
    }
  }
}
