/** `build_applications_blueprint` of scripts/authentik_blueprint_sync.py: the exported
    applications, each followed by its policy bindings. */
module Export {
  import opened Results
  import opened Sorting

  datatype Application = Application(pk: string, slug: string, provider: string, name: string)

  datatype Binding = Binding(
    pk: string, target: string, order: int,
    group: Option<string>, user: Option<string>, policy: Option<string>)

  /** The live state; the three maps give the names of groups, users and policies by pk. */
  datatype State = State(
    applications: seq<Application>, bindings: seq<Binding>, providers: set<string>,
    groups: map<string, string>, users: map<string, string>, policies: map<string, string>)

  datatype Entry =
    | ApplicationEntry(application: Application)
    | BindingEntry(slug: string, binding: Binding, group: Option<string>, user: Option<string>, policy: Option<string>)

  datatype Problem = UnknownPk(pk: string)

  // ----- Tables -----

  function ByPk(applications: seq<Application>): map<string, Application> {
    if applications == [] then map[]
    else
      var last := applications[|applications| - 1];
      ByPk(applications[..|applications| - 1])[last.pk := last]
  }

  /** The bindings whose target is an application with this slug, in the order of the list. */
  function BindingsOf(byPk: map<string, Application>, bindings: seq<Binding>, slug: string): seq<Binding> {
    if bindings == [] then []
    else
      var last := bindings[|bindings| - 1];
      BindingsOf(byPk, bindings[..|bindings| - 1], slug)
      + (if last.target in byPk && byPk[last.target].slug == slug then [last] else [])
  }

  lemma BindingsSnoc(byPk: map<string, Application>, front: seq<Binding>, last: Binding, slug: string)
    ensures BindingsOf(byPk, front + [last], slug)
      == BindingsOf(byPk, front, slug) + (if last.target in byPk && byPk[last.target].slug == slug then [last] else [])
  {
    assert (front + [last])[..|front|] == front;
  }

  method GroupBindings(byPk: map<string, Application>, bindings: seq<Binding>)
    returns (grouped: map<string, seq<Binding>>)
    ensures forall slug :: (if slug in grouped then grouped[slug] else []) == BindingsOf(byPk, bindings, slug)
  {
    grouped := map[];
    for i := 0 to |bindings|
      invariant forall slug :: (if slug in grouped then grouped[slug] else []) == BindingsOf(byPk, bindings[..i], slug)
    {
      hide BindingsOf;
      var b := bindings[i];
      assert bindings[..i + 1] == bindings[..i] + [b];
      forall slug
        ensures BindingsOf(byPk, bindings[..i + 1], slug) == BindingsOf(byPk, bindings[..i], slug)
          + (if b.target in byPk && byPk[b.target].slug == slug then [b] else [])
      {
        BindingsSnoc(byPk, bindings[..i], b, slug);
      }
      if b.target in byPk {
        var slug := byPk[b.target].slug;
        grouped := grouped[slug := (if slug in grouped then grouped[slug] else []) + [b]];
      }
    }
    assert bindings[..|bindings|] == bindings;
  }

  // ----- Entries -----

  function NameOf(names: map<string, string>, pk: Option<string>): Result<Option<string>, Problem> {
    if pk.None? || pk.value == "" then Ok(None)
    else if pk.value in names then Ok(Some(names[pk.value]))
    else Err(UnknownPk(pk.value))
  }

  function EntryOf(state: State, slug: string, b: Binding): Result<Entry, Problem> {
    var group :- NameOf(state.groups, b.group);
    var user :- NameOf(state.users, b.user);
    var policy :- NameOf(state.policies, b.policy);
    Ok(BindingEntry(slug, b, group, user, policy))
  }

  ghost predicate KnownPk(pk: Option<string>, names: map<string, string>) {
    pk.Some? && pk.value != "" ==> pk.value in names
  }

  /** Every group, user and policy the binding refers to is known as such. */
  ghost predicate Known(state: State, b: Binding) {
    KnownPk(b.group, state.groups) && KnownPk(b.user, state.users) && KnownPk(b.policy, state.policies)
  }

  ghost predicate Named(name: Option<string>, pk: Option<string>, names: map<string, string>) {
    match pk
    case Some(key) => if key == "" then name.None? else key in names && name == Some(names[key])
    case None => name.None?
  }

  /** The entry gives the names of the binding's own group, user and policy. */
  ghost predicate NamesRight(state: State, e: Entry) {
    e.BindingEntry? ==>
      && Named(e.group, e.binding.group, state.groups) && Named(e.user, e.binding.user, state.users)
      && Named(e.policy, e.binding.policy, state.policies)
  }

  /** The pk is one the binding refers to, and is not known as what it should be. */
  ghost predicate Unknown(state: State, b: Binding, pk: string) {
    pk != "" &&
    ((b.group == Some(pk) && pk !in state.groups) || (b.user == Some(pk) && pk !in state.users)
      || (b.policy == Some(pk) && pk !in state.policies))
  }

  lemma EntryMeans(state: State, slug: string, b: Binding)
    ensures var r := EntryOf(state, slug, b);
      && (r.Ok? <==> Known(state, b))
      && (r.Ok? ==> r.value.BindingEntry? && r.value.slug == slug && r.value.binding == b && NamesRight(state, r.value))
      && (r.Err? ==> Unknown(state, b, r.error.pk))
  {
  }

  predicate OrderLeq(a: Binding, b: Binding) {
    a.order <= b.order
  }

  predicate SlugLeq(a: Application, b: Application) {
    StringLeq(a.slug, b.slug)
  }

  predicate IsExported(state: State, a: Application) {
    a.provider in state.providers
  }

  /** The entries of some bindings, if all their references resolve. */
  predicate EntriesFor(state: State, slug: string, bindings: seq<Binding>, entries: seq<Entry>) {
    |entries| == |bindings| && forall i | 0 <= i < |bindings| :: EntryOf(state, slug, bindings[i]) == Ok(entries[i])
  }

  method EmitBindings(state: State, slug: string, bindings: seq<Binding>) returns (r: Result<seq<Entry>, Problem>)
    ensures r.Ok? <==> forall b | b in bindings :: EntryOf(state, slug, b).Ok?
    ensures r.Err? ==> exists b | b in bindings :: Unknown(state, b, r.error.pk)
    ensures r.Ok? ==> EntriesFor(state, slug, bindings, r.value)
  {
    var entries := [];
    for i := 0 to |bindings|
      invariant EntriesFor(state, slug, bindings[..i], entries)
    {
      var e := EntryOf(state, slug, bindings[i]);
      if e.Err? {
        assert bindings[i] in bindings;
        EntryMeans(state, slug, bindings[i]);
        return Err(e.error);
      }
      entries := entries + [e.value];
    }
    assert bindings[..|bindings|] == bindings;
    return Ok(entries);
  }

  /** One exported application with its bindings in ascending order. */
  ghost predicate IsBlock(state: State, a: Application, block: seq<Entry>) {
    && block != [] && block[0] == ApplicationEntry(a)
    && EntriesFor(state, a.slug,
         Sorted(BindingsOf(ByPk(state.applications), state.bindings, a.slug), OrderLeq), block[1..])
  }

  /** The blocks of the exported ones among some applications, in order. */
  ghost predicate AreBlocks(state: State, applications: seq<Application>, entries: seq<Entry>)
    decreases |applications|
  {
    if applications == [] then entries == []
    else
      var front, last := applications[..|applications| - 1], applications[|applications| - 1];
      if !IsExported(state, last) then AreBlocks(state, front, entries)
      else exists k | 0 <= k <= |entries| :: AreBlocks(state, front, entries[..k]) && IsBlock(state, last, entries[k..])
  }

  /** Every reference of the application's bindings is to a known pk. */
  ghost predicate Resolves(state: State, a: Application) {
    forall b | b in BindingsOf(ByPk(state.applications), state.bindings, a.slug) :: Known(state, b)
  }

  method BuildApplications(state: State) returns (r: Result<seq<Entry>, Problem>)
    ensures r.Ok? <==> forall a | a in state.applications && IsExported(state, a) :: Resolves(state, a)
    ensures r.Ok? ==> AreBlocks(state, Sorted(state.applications, SlugLeq), r.value)
    ensures r.Err? ==> exists b | b in state.bindings :: Unknown(state, b, r.error.pk)
  {
    hide Unknown;
    hide AreBlocks, IsBlock, Resolves, EntriesFor, Sorted, BindingsOf, ByPk;
    var byPk := ByPk(state.applications);
    var grouped := GroupBindings(byPk, state.bindings);
    var sorted := Sorted(state.applications, SlugLeq);
    SortedMembers(state.applications);
    var entries := [];
    NoBlocks(state);
    for i := 0 to |sorted|
      invariant AreBlocks(state, sorted[..i], entries)
      invariant forall k | 0 <= k < i && IsExported(state, sorted[k]) :: Resolves(state, sorted[k])
    {
      var a := sorted[i];
      assert a in sorted;
      if !IsExported(state, a) {
        AnotherBlock(state, sorted, i, entries, []);
        assert entries + [] == entries;
        continue;
      }
      var own := if a.slug in grouped then grouped[a.slug] else [];
      var ordered := Sorted(own, OrderLeq);
      var emitted := EmitBindings(state, a.slug, ordered);
      OrderedResolves(state, a);
      if emitted.Err? {
        OrderedMembers(state, a);
        return Err(emitted.error);
      }
      var block := [ApplicationEntry(a)] + emitted.value;
      assert block[1..] == emitted.value;
      AnotherBlock(state, sorted, i, entries, block);
      entries := entries + block;
    }
    assert sorted[..|sorted|] == sorted;
    return Ok(entries);
  }

  lemma NoBlocks(state: State)
    ensures AreBlocks(state, [], [])
  {
  }

  lemma AnotherBlock(state: State, applications: seq<Application>, i: nat, entries: seq<Entry>, block: seq<Entry>)
    requires i < |applications| && AreBlocks(state, applications[..i], entries)
    requires IsExported(state, applications[i]) ==>
      && block != [] && block[0] == ApplicationEntry(applications[i])
      && EntriesFor(state, applications[i].slug,
           Sorted(BindingsOf(ByPk(state.applications), state.bindings, applications[i].slug), OrderLeq), block[1..])
    requires !IsExported(state, applications[i]) ==> block == []
    ensures AreBlocks(state, applications[..i + 1], entries + block)
  {
    assert applications[..i + 1][..i] == applications[..i];
    var next := entries + block;
    assert next[..|entries|] == entries && next[|entries|..] == block;
    if !IsExported(state, applications[i]) {
      assert next == entries;
    }
  }

  lemma SortedMembers(applications: seq<Application>)
    ensures forall a :: a in Sorted(applications, SlugLeq) <==> a in applications
  {
    SlugIsTotal();
    var sorted := Sorted(applications, SlugLeq);
    SortedSorts(applications, SlugLeq);
    forall a
      ensures a in sorted <==> a in applications
    {
      assert a in sorted <==> a in multiset(sorted);
      assert a in applications <==> a in multiset(applications);
    }
  }

  lemma OrderedResolves(state: State, a: Application)
    ensures var own := BindingsOf(ByPk(state.applications), state.bindings, a.slug);
      Resolves(state, a) <==> forall b | b in Sorted(own, OrderLeq) :: EntryOf(state, a.slug, b).Ok?
  {
    hide BindingsOf, ByPk, Sorted, EntryOf, Known;
    var own := BindingsOf(ByPk(state.applications), state.bindings, a.slug);
    OrderedMembers(state, a);
    forall b
      ensures EntryOf(state, a.slug, b).Ok? <==> Known(state, b)
    {
      EntryMeans(state, a.slug, b);
    }
  }

  lemma OrderedMembers(state: State, a: Application)
    ensures var own := BindingsOf(ByPk(state.applications), state.bindings, a.slug);
      (forall b :: b in Sorted(own, OrderLeq) <==> b in own) && (forall b | b in own :: b in state.bindings)
  {
    var own := BindingsOf(ByPk(state.applications), state.bindings, a.slug);
    OrderIsTotal();
    SortedSorts(own, OrderLeq);
    forall b
      ensures b in Sorted(own, OrderLeq) <==> b in own
    {
      assert b in own <==> b in multiset(own);
      assert b in Sorted(own, OrderLeq) <==> b in multiset(Sorted(own, OrderLeq));
    }
    OwnAreStored(ByPk(state.applications), state.bindings, a.slug);
  }

  lemma {:induction false} OwnAreStored(byPk: map<string, Application>, bindings: seq<Binding>, slug: string)
    ensures forall b | b in BindingsOf(byPk, bindings, slug) :: b in bindings
    decreases |bindings|
  {
    if bindings != [] {
      var n := |bindings| - 1;
      OwnAreStored(byPk, bindings[..n], slug);
      assert bindings == bindings[..n] + [bindings[n]];
    }
  }

  lemma OrderIsTotal()
    ensures TotalPreorder(OrderLeq)
  {
  }

  lemma SlugIsTotal()
    ensures TotalPreorder(SlugLeq)
  {
    forall a: Application, b: Application
      ensures SlugLeq(a, b) || SlugLeq(b, a)
    {
      StringTotal(a.slug, b.slug);
    }
    forall a: Application, b: Application, c: Application | SlugLeq(a, b) && SlugLeq(b, c)
      ensures SlugLeq(a, c)
    {
      StringTransitive(a.slug, b.slug, c.slug);
    }
  }

  // ----- Conservation -----

  ghost predicate UniqueKeys(applications: seq<Application>) {
    forall i, j | 0 <= i < j < |applications| ::
      applications[i].pk != applications[j].pk && applications[i].slug != applications[j].slug
  }

  /** The bindings of the output, in order. */
  function BindingsIn(entries: seq<Entry>): seq<Binding> {
    if entries == [] then []
    else
      BindingsIn(entries[..|entries| - 1])
      + (if entries[|entries| - 1].BindingEntry? then [entries[|entries| - 1].binding] else [])
  }

  /** The bindings aimed at one of some applications. */
  function AimedAt(bindings: seq<Binding>, pks: set<string>): seq<Binding> {
    if bindings == [] then []
    else
      AimedAt(bindings[..|bindings| - 1], pks)
      + (if bindings[|bindings| - 1].target in pks then [bindings[|bindings| - 1]] else [])
  }

  function ExportedPks(state: State, applications: seq<Application>): set<string> {
    set a | a in applications && IsExported(state, a) :: a.pk
  }

  lemma {:induction false} ByPkMember(applications: seq<Application>, a: Application)
    requires UniqueKeys(applications)
    ensures a in applications <==> a.pk in ByPk(applications) && ByPk(applications)[a.pk] == a
    ensures forall pk | pk in ByPk(applications) ::
      ByPk(applications)[pk].pk == pk && ByPk(applications)[pk] in applications
    decreases |applications|
  {
    if applications != [] {
      var n := |applications| - 1;
      assert applications == applications[..n] + [applications[n]];
      ByPkMember(applications[..n], a);
      if a in applications[..n] {
        var i :| 0 <= i < n && applications[i] == a;
        assert applications[i].pk != applications[n].pk;
      }
    }
  }

  /** With unique slugs, the bindings filed under an application's slug are those aimed at it. */
  lemma {:induction false} FiledIsAimed(applications: seq<Application>, bindings: seq<Binding>, a: Application)
    requires UniqueKeys(applications) && a in applications
    ensures BindingsOf(ByPk(applications), bindings, a.slug) == AimedAt(bindings, {a.pk})
    decreases |bindings|
  {
    if bindings != [] {
      var n := |bindings| - 1;
      FiledIsAimed(applications, bindings[..n], a);
      ByPkMember(applications, a);
      var byPk, target := ByPk(applications), bindings[n].target;
      if target in byPk && byPk[target].slug == a.slug {
        SameSlugSameApplication(applications, byPk[target], a);
      }
    }
  }

  lemma SameSlugSameApplication(applications: seq<Application>, a: Application, b: Application)
    requires UniqueKeys(applications) && a in applications && b in applications && a.slug == b.slug
    ensures a == b
  {
    var i :| 0 <= i < |applications| && applications[i] == a;
    var j :| 0 <= j < |applications| && applications[j] == b;
  }

  lemma {:induction false} AimedAtTwo(bindings: seq<Binding>, pks: set<string>, pk: string)
    requires pk !in pks
    ensures multiset(AimedAt(bindings, pks + {pk}))
      == multiset(AimedAt(bindings, pks)) + multiset(AimedAt(bindings, {pk}))
    decreases |bindings|
  {
    if bindings != [] {
      AimedAtTwo(bindings[..|bindings| - 1], pks, pk);
    }
  }

  lemma {:induction false} BindingsInConcat(a: seq<Entry>, b: seq<Entry>)
    ensures BindingsIn(a + b) == BindingsIn(a) + BindingsIn(b)
    decreases |b|
  {
    if b == [] {
      assert a + b == a;
    } else {
      assert (a + b)[..|a + b| - 1] == a + b[..|b| - 1];
      BindingsInConcat(a, b[..|b| - 1]);
    }
  }

  lemma {:induction false} BindingsInEntries(state: State, slug: string, bindings: seq<Binding>, entries: seq<Entry>)
    requires EntriesFor(state, slug, bindings, entries)
    ensures BindingsIn(entries) == bindings && |entries| == |bindings|
    ensures forall i | 0 <= i < |entries| ::
      entries[i].BindingEntry? && entries[i].binding == bindings[i] && entries[i].slug == slug
    decreases |entries|
  {
    if entries != [] {
      var n := |entries| - 1;
      assert EntryOf(state, slug, bindings[n]) == Ok(entries[n]);
      BindingsInEntries(state, slug, bindings[..n], entries[..n]);
      assert bindings == bindings[..n] + [bindings[n]];
    }
  }

  lemma BindingsInBlock(state: State, a: Application, block: seq<Entry>)
    requires IsBlock(state, a, block) && UniqueKeys(state.applications) && a in state.applications
    ensures multiset(BindingsIn(block)) == multiset(AimedAt(state.bindings, {a.pk}))
  {
    hide EntriesFor, EntryOf, BindingsOf, AimedAt, Sorted, ByPk, UniqueKeys;
    var own := BindingsOf(ByPk(state.applications), state.bindings, a.slug);
    OrderIsTotal();
    SortedSorts(own, OrderLeq);
    BindingsInEntries(state, a.slug, Sorted(own, OrderLeq), block[1..]);
    assert block == [block[0]] + block[1..];
    BindingsInConcat([block[0]], block[1..]);
    assert [block[0]][..0] == [];
    FiledIsAimed(state.applications, state.bindings, a);
  }

  lemma {:induction false} BlocksConserve(state: State, applications: seq<Application>, entries: seq<Entry>)
    requires AreBlocks(state, applications, entries) && UniqueKeys(state.applications) && UniqueKeys(applications)
    requires forall a | a in applications :: a in state.applications
    ensures multiset(BindingsIn(entries)) == multiset(AimedAt(state.bindings, ExportedPks(state, applications)))
    decreases |applications|
  {
    hide IsBlock, AimedAt, BindingsIn;
    if applications == [] {
      NoneAimed(state.bindings);
      NoBindings();
      assert ExportedPks(state, applications) == {};
    } else {
      var n := |applications| - 1;
      var front, last := applications[..n], applications[n];
      assert applications == front + [last];
      LastIsNew(applications);
      if !IsExported(state, last) {
        BlocksConserve(state, front, entries);
        assert ExportedPks(state, applications) == ExportedPks(state, front);
      } else {
        var k :| 0 <= k <= |entries| && AreBlocks(state, front, entries[..k]) && IsBlock(state, last, entries[k..]);
        BlocksConserve(state, front, entries[..k]);
        BindingsInBlock(state, last, entries[k..]);
        assert entries == entries[..k] + entries[k..];
        BindingsInConcat(entries[..k], entries[k..]);
        assert ExportedPks(state, applications) == ExportedPks(state, front) + {last.pk};
        AimedAtTwo(state.bindings, ExportedPks(state, front), last.pk);
      }
    }
  }

  lemma NoBindings()
    ensures BindingsIn([]) == []
  {
  }

  lemma LastIsNew(applications: seq<Application>)
    requires applications != [] && UniqueKeys(applications)
    ensures var n := |applications| - 1;
      UniqueKeys(applications[..n]) && forall a | a in applications[..n] :: a.pk != applications[n].pk
  {
  }

  lemma {:induction false} NoneAimed(bindings: seq<Binding>)
    ensures AimedAt(bindings, {}) == []
    decreases |bindings|
  {
    if bindings != [] {
      NoneAimed(bindings[..|bindings| - 1]);
    }
  }

  /** Entry `i` stands in the run of bindings right after its application's entry `j`. */
  ghost predicate Placed(state: State, entries: seq<Entry>, i: int, j: int)
    requires 0 <= j < i < |entries|
  {
    && entries[j].ApplicationEntry? && IsExported(state, entries[j].application)
    && (forall k | j < k <= i :: entries[k].BindingEntry? && entries[k].binding.target == entries[j].application.pk
          && entries[k].slug == entries[j].application.slug)
    && (forall k, l | j < k < l <= i :: entries[k].binding.order <= entries[l].binding.order)
  }

  ghost predicate AllPlaced(state: State, entries: seq<Entry>) {
    forall i | 0 <= i < |entries| && entries[i].BindingEntry? :: exists j | 0 <= j < i :: Placed(state, entries, i, j)
  }

  lemma BlockPlaced(state: State, a: Application, block: seq<Entry>)
    requires IsBlock(state, a, block) && UniqueKeys(state.applications) && a in state.applications
      && IsExported(state, a)
    ensures forall i | 1 <= i < |block| :: Placed(state, block, i, 0)
  {
    hide EntriesFor, EntryOf, BindingsOf, AimedAt, Sorted, ByPk, UniqueKeys;
    var own := BindingsOf(ByPk(state.applications), state.bindings, a.slug);
    var ordered := Sorted(own, OrderLeq);
    OrderIsTotal();
    SortedSorts(own, OrderLeq);
    BindingsInEntries(state, a.slug, ordered, block[1..]);
    FiledIsAimed(state.applications, state.bindings, a);
    forall k | 1 <= k < |block|
      ensures block[k].BindingEntry? && block[k].binding == ordered[k - 1] && block[k].slug == a.slug
      ensures ordered[k - 1].target == a.pk
    {
      assert block[k] == block[1..][k - 1];
      assert ordered[k - 1] in multiset(ordered);
      AimedMember(state.bindings, {a.pk}, ordered[k - 1]);
    }
  }

  lemma {:induction false} AimedMember(bindings: seq<Binding>, pks: set<string>, b: Binding)
    ensures b in AimedAt(bindings, pks) ==> b.target in pks
    decreases |bindings|
  {
    if bindings != [] {
      AimedMember(bindings[..|bindings| - 1], pks, b);
    }
  }

  lemma PlacedShifts(state: State, part: seq<Entry>, all: seq<Entry>, i: int, j: int, shift: nat)
    requires 0 <= j < i < |part| && shift + |part| <= |all| && Placed(state, part, i, j)
    requires forall k | 0 <= k < |part| :: all[shift + k] == part[k]
    ensures Placed(state, all, shift + i, shift + j)
  {
    assert forall k | shift <= k <= shift + i :: all[k] == part[k - shift];
  }

  lemma PlacedConcat(state: State, a: seq<Entry>, b: seq<Entry>)
    requires AllPlaced(state, a) && b != [] && b[0].ApplicationEntry?
    requires forall i | 1 <= i < |b| :: Placed(state, b, i, 0)
    ensures AllPlaced(state, a + b)
  {
    hide Placed;
    var all := a + b;
    forall i | 0 <= i < |all| && all[i].BindingEntry?
      ensures exists j | 0 <= j < i :: Placed(state, all, i, j)
    {
      if i < |a| {
        assert all[i] == a[i];
        var j :| 0 <= j < i && Placed(state, a, i, j);
        PlacedShifts(state, a, all, i, j, 0);
      } else {
        assert all[|a|] == b[0] && all[i] == b[i - |a|];
        PlacedShifts(state, b, all, i - |a|, 0, |a|);
        assert Placed(state, all, i, |a|);
      }
    }
  }

  lemma {:induction false} BlocksPlaced(state: State, applications: seq<Application>, entries: seq<Entry>)
    requires AreBlocks(state, applications, entries) && UniqueKeys(state.applications)
    requires forall a | a in applications :: a in state.applications
    ensures AllPlaced(state, entries)
    decreases |applications|
  {
    hide AllPlaced, IsBlock;
    if applications == [] {
      NothingPlaced(state);
    } else {
      var n := |applications| - 1;
      var front, last := applications[..n], applications[n];
      assert applications == front + [last];
      if !IsExported(state, last) {
        BlocksPlaced(state, front, entries);
      } else {
        var k :| 0 <= k <= |entries| && AreBlocks(state, front, entries[..k]) && IsBlock(state, last, entries[k..]);
        BlocksPlaced(state, front, entries[..k]);
        BlockStart(state, last, entries[k..]);
        BlockPlaced(state, last, entries[k..]);
        PlacedConcat(state, entries[..k], entries[k..]);
        assert entries == entries[..k] + entries[k..];
      }
    }
  }

  // ----- The applications of the output, and the names in its bindings -----

  function ApplicationsIn(entries: seq<Entry>): seq<Application> {
    if entries == [] then []
    else
      ApplicationsIn(entries[..|entries| - 1])
      + (if entries[|entries| - 1].ApplicationEntry? then [entries[|entries| - 1].application] else [])
  }

  lemma {:induction false} ApplicationsConcat(a: seq<Entry>, b: seq<Entry>)
    ensures ApplicationsIn(a + b) == ApplicationsIn(a) + ApplicationsIn(b)
    decreases |b|
  {
    if b == [] {
      assert a + b == a;
    } else {
      assert (a + b)[..|a + b| - 1] == a + b[..|b| - 1];
      ApplicationsConcat(a, b[..|b| - 1]);
    }
  }

  lemma {:induction false} NoApplications(entries: seq<Entry>)
    requires forall i | 0 <= i < |entries| :: entries[i].BindingEntry?
    ensures ApplicationsIn(entries) == []
    decreases |entries|
  {
    if entries != [] {
      NoApplications(entries[..|entries| - 1]);
    }
  }

  /** An application with a provider of the export's own kinds. */
  function Exported(state: State): Application -> bool {
    (a: Application) => a.provider in state.providers
  }

  lemma BlockSays(state: State, a: Application, block: seq<Entry>)
    requires IsBlock(state, a, block)
    ensures ApplicationsIn(block) == [a] && forall e | e in block :: NamesRight(state, e)
  {
    hide EntryOf, BindingsOf, Sorted, ByPk, NamesRight;
    var ordered := Sorted(BindingsOf(ByPk(state.applications), state.bindings, a.slug), OrderLeq);
    BindingsInEntries(state, a.slug, ordered, block[1..]);
    assert block == [block[0]] + block[1..];
    ApplicationsConcat([block[0]], block[1..]);
    NoApplications(block[1..]);
    assert [block[0]][..0] == [];
    ApplicationIsNamed(state, block[0]);
    forall i | 1 <= i < |block|
      ensures NamesRight(state, block[i])
    {
      assert block[1..][i - 1] == block[i];
      EntryMeans(state, a.slug, ordered[i - 1]);
    }
  }

  lemma ApplicationIsNamed(state: State, e: Entry)
    ensures e.ApplicationEntry? ==> NamesRight(state, e)
  {
  }

  lemma {:induction false} BlocksSay(state: State, applications: seq<Application>, entries: seq<Entry>)
    requires AreBlocks(state, applications, entries)
    ensures ApplicationsIn(entries) == Select(applications, Exported(state))
    ensures forall e | e in entries :: NamesRight(state, e)
    decreases |applications|
  {
    hide IsBlock, NamesRight, Select;
    if applications == [] {
      NothingSelected(Exported(state));
    } else {
      var n := |applications| - 1;
      var front, last := applications[..n], applications[n];
      assert applications == front + [last];
      SelectConcat(front, [last], Exported(state));
      OneSelected(last, Exported(state));
      if !IsExported(state, last) {
        BlocksSay(state, front, entries);
      } else {
        var k :| 0 <= k <= |entries| && AreBlocks(state, front, entries[..k]) && IsBlock(state, last, entries[k..]);
        BlocksSay(state, front, entries[..k]);
        BlockSays(state, last, entries[k..]);
        assert entries == entries[..k] + entries[k..];
        ApplicationsConcat(entries[..k], entries[k..]);
      }
    }
  }

  lemma NothingSelected<T>(keep: T -> bool)
    ensures Select([], keep) == []
  {
  }

  lemma OneSelected<T>(x: T, keep: T -> bool)
    ensures Select([x], keep) == if keep(x) then [x] else []
  {
    assert [x][1..] == [];
  }

  /** The applications of the output are the exported ones, each as often as the server has it,
      in ascending order of their slugs; and every binding gives its own names. */
  lemma ExportedInOrder(state: State, entries: seq<Entry>)
    requires AreBlocks(state, Sorted(state.applications, SlugLeq), entries)
    ensures multiset(ApplicationsIn(entries)) == multiset(Select(state.applications, Exported(state)))
    ensures forall i, j | 0 <= i < j < |ApplicationsIn(entries)| ::
      NotAfter(ApplicationsIn(entries)[i].slug, ApplicationsIn(entries)[j].slug)
    ensures forall e | e in entries :: NamesRight(state, e)
  {
    hide AreBlocks, NamesRight, Select, Sorted, NotAfter, ApplicationsIn;
    var sorted, keep := Sorted(state.applications, SlugLeq), Exported(state);
    SlugIsTotal();
    SortedSorts(state.applications, SlugLeq);
    BlocksSay(state, sorted, entries);
    SelectAscends(sorted, SlugLeq, keep);
    SelectPermutes(sorted, state.applications, keep);
    forall i, j | 0 <= i < j < |ApplicationsIn(entries)|
      ensures NotAfter(ApplicationsIn(entries)[i].slug, ApplicationsIn(entries)[j].slug)
    {
      StringLeqMeans(ApplicationsIn(entries)[i].slug, ApplicationsIn(entries)[j].slug);
    }
  }

  lemma SelectPermutes<T(!new)>(s: seq<T>, t: seq<T>, keep: T -> bool)
    requires multiset(s) == multiset(t)
    ensures multiset(Select(s, keep)) == multiset(Select(t, keep))
  {
    forall x
      ensures multiset(Select(s, keep))[x] == multiset(Select(t, keep))[x]
    {
      SelectCounts(s, keep, x);
      SelectCounts(t, keep, x);
    }
  }

  // ----- Ties -----

  /** The bindings with this target and order. */
  function Tied(pk: string, order: int): Binding -> bool {
    (b: Binding) => b.target == pk && b.order == order
  }

  lemma {:induction false} AimedTies(bindings: seq<Binding>, aim: string, pk: string, order: int)
    ensures Select(AimedAt(bindings, {aim}), Tied(pk, order))
      == if aim == pk then Select(bindings, Tied(pk, order)) else []
    decreases |bindings|
  {
    if bindings != [] {
      var front, last := bindings[..|bindings| - 1], bindings[|bindings| - 1];
      AimedTies(front, aim, pk, order);
      assert bindings == front + [last];
      SelectConcat(front, [last], Tied(pk, order));
      SelectConcat(AimedAt(front, {aim}), if last.target == aim then [last] else [], Tied(pk, order));
    }
  }

  lemma BlockTies(state: State, a: Application, block: seq<Entry>, pk: string, order: int)
    requires IsBlock(state, a, block) && UniqueKeys(state.applications) && a in state.applications
    ensures Select(BindingsIn(block), Tied(pk, order))
      == if a.pk == pk then Select(state.bindings, Tied(pk, order)) else []
  {
    hide EntriesFor, EntryOf, BindingsOf, AimedAt, Sorted, ByPk, UniqueKeys, Select;
    var own := BindingsOf(ByPk(state.applications), state.bindings, a.slug);
    BindingsInEntries(state, a.slug, Sorted(own, OrderLeq), block[1..]);
    assert block == [block[0]] + block[1..];
    BindingsInConcat([block[0]], block[1..]);
    assert [block[0]][..0] == [];
    assert BindingsIn(block) == Sorted(own, OrderLeq);
    FiledIsAimed(state.applications, state.bindings, a);
    OrderIsTotal();
    SortedIsStable(own, OrderLeq, Tied(pk, order));
    AimedTies(state.bindings, a.pk, pk, order);
  }

  lemma {:induction false} BlocksTies(state: State, applications: seq<Application>, entries: seq<Entry>, pk: string,
      order: int)
    requires AreBlocks(state, applications, entries) && UniqueKeys(state.applications) && UniqueKeys(applications)
    requires forall a | a in applications :: a in state.applications
    ensures Select(BindingsIn(entries), Tied(pk, order))
      == if pk in ExportedPks(state, applications) then Select(state.bindings, Tied(pk, order)) else []
    decreases |applications|
  {
    hide IsBlock, BindingsIn, Tied, Select, UniqueKeys, ExportedPks;
    if applications == [] {
      NothingTied(state, pk, order);
    } else {
      var n := |applications| - 1;
      var front, last := applications[..n], applications[n];
      assert applications == front + [last];
      LastIsNew(applications);
      ExportedSnoc(state, front, last);
      if !IsExported(state, last) {
        BlocksTies(state, front, entries, pk, order);
      } else {
        var k :| 0 <= k <= |entries| && AreBlocks(state, front, entries[..k]) && IsBlock(state, last, entries[k..]);
        BlocksTies(state, front, entries[..k], pk, order);
        BlockTies(state, last, entries[k..], pk, order);
        assert entries == entries[..k] + entries[k..];
        BindingsInConcat(entries[..k], entries[k..]);
        SelectConcat(BindingsIn(entries[..k]), BindingsIn(entries[k..]), Tied(pk, order));
        LastIsNotExportedBefore(state, front, last);
      }
    }
  }

  lemma NothingTied(state: State, pk: string, order: int)
    ensures Select(BindingsIn([]), Tied(pk, order)) == [] && ExportedPks(state, []) == {}
  {
  }

  lemma ExportedSnoc(state: State, front: seq<Application>, last: Application)
    ensures ExportedPks(state, front + [last])
      == ExportedPks(state, front) + (if IsExported(state, last) then {last.pk} else {})
  {
    assert forall a :: a in front + [last] <==> a in front || a == last;
  }

  lemma LastIsNotExportedBefore(state: State, front: seq<Application>, last: Application)
    requires forall a | a in front :: a.pk != last.pk
    ensures last.pk !in ExportedPks(state, front)
  {
  }

  lemma NothingPlaced(state: State)
    ensures AllPlaced(state, [])
  {
  }

  lemma BlockStart(state: State, a: Application, block: seq<Entry>)
    requires IsBlock(state, a, block)
    ensures block != [] && block[0] == ApplicationEntry(a)
  {
  }

  lemma SortedKeys(applications: seq<Application>)
    requires UniqueKeys(applications)
    ensures UniqueKeys(Sorted(applications, SlugLeq))
    ensures forall a :: a in Sorted(applications, SlugLeq) <==> a in applications
  {
    SlugIsTotal();
    var sorted := Sorted(applications, SlugLeq);
    SortedSorts(applications, SlugLeq);
    SortedMembers(applications);
    forall i, j | 0 <= i < j < |sorted|
      ensures sorted[i].pk != sorted[j].pk && sorted[i].slug != sorted[j].slug
    {
      DistinctPlaces(applications, sorted, i, j);
    }
  }

  /** Two places of a permutation hold different applications. */
  lemma DistinctPlaces(applications: seq<Application>, sorted: seq<Application>, i: nat, j: nat)
    requires UniqueKeys(applications) && multiset(sorted) == multiset(applications) && i < j < |sorted|
    ensures sorted[i].pk != sorted[j].pk && sorted[i].slug != sorted[j].slug
  {
    var a, b := sorted[i], sorted[j];
    if a == b {
      CountTwice(sorted, i, j);
      CountUnique(applications, a);
    }
    assert a in multiset(sorted) && b in multiset(sorted);
    assert a in multiset(applications) && b in multiset(applications);
    var k :| 0 <= k < |applications| && applications[k] == a;
    var l :| 0 <= l < |applications| && applications[l] == b;
  }

  lemma {:induction false} CountUnique(applications: seq<Application>, a: Application)
    requires UniqueKeys(applications)
    ensures multiset(applications)[a] <= 1
    decreases |applications|
  {
    if applications != [] {
      var n := |applications| - 1;
      assert applications == applications[..n] + [applications[n]];
      CountUnique(applications[..n], a);
      if a in applications[..n] {
        var i :| 0 <= i < n && applications[i] == a;
        assert applications[i].pk != applications[n].pk;
      }
    }
  }

  /** With unique pks and slugs: the output holds exactly the bindings aimed at exported
      applications, each as often as the server does, directly after its application, in
      ascending order and before the next application; ties keep the server's order. */
  lemma ExportConserves(state: State, entries: seq<Entry>)
    requires UniqueKeys(state.applications) && AreBlocks(state, Sorted(state.applications, SlugLeq), entries)
    ensures multiset(BindingsIn(entries)) == multiset(AimedAt(state.bindings, ExportedPks(state, state.applications)))
    ensures AllPlaced(state, entries)
    ensures forall pk, order ::
      Select(BindingsIn(entries), Tied(pk, order))
      == if pk in ExportedPks(state, state.applications) then Select(state.bindings, Tied(pk, order)) else []
  {
    hide AreBlocks, AllPlaced, BindingsIn, Select, Tied, UniqueKeys, AimedAt, Sorted;
    var sorted := Sorted(state.applications, SlugLeq);
    SortedKeys(state.applications);
    BlocksConserve(state, sorted, entries);
    BlocksPlaced(state, sorted, entries);
    assert ExportedPks(state, sorted) == ExportedPks(state, state.applications);
    forall pk, order
      ensures Select(BindingsIn(entries), Tied(pk, order))
        == if pk in ExportedPks(state, sorted) then Select(state.bindings, Tied(pk, order)) else []
    {
      BlocksTies(state, sorted, entries, pk, order);
    }
  }
}
