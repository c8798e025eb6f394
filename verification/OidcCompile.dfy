/** `generate_oidc_blueprint_content` of scripts/authentik_blueprint_sync.py: the blueprint
    entries of a manifest, and what they mean when a server applies them. */
module OidcCompile {
  import opened Results
  import opened Oidc
  import Slug

  datatype Subject = Group(name: string) | Policy(name: string) | User(name: string)

  /** What a provider entry sets, but for its scopes and what is the same for all apps. */
  datatype Provider = Provider(
    name: string, clientId: string, secretVar: string, certificateVar: string,
    grantTypes: Option<seq<string>>, redirectUris: seq<string>)

  datatype Application = Application(slug: string, name: string, launchUrl: string, provider: string)

  datatype Entry =
    | ScopeEntry(id: string, mapping: Mapping)
    | ProviderEntry(id: string, provider: Provider, scopes: seq<string>)
    | ApplicationEntry(id: string, application: Application)
    | Present(target: string, order: int, subject: Subject)
    | Gone(target: string, order: int)

  const VERIFY_AGENT := "verify-agent"

  function ScopeId(slugify: string -> string, name: string): string {
    "scope-" + slugify(name)
  }

  function ProviderId(app: App): string
    requires Complete(app)
  {
    "provider-" + SlugOf(app)
  }

  function AppId(app: App): string
    requires Complete(app)
  {
    "app-" + SlugOf(app)
  }

  function TextOf(app: App, field: string): string
    requires Complete(app) && field in REQUIRED_TEXTS
  {
    app.texts[field]
  }

  function ProviderOf(app: App): Provider
    requires Complete(app)
  {
    assert REQUIRED_TEXTS[2] == "provider_name" && REQUIRED_TEXTS[4] == "client_id";
    assert REQUIRED_TEXTS[5] == "client_secret_var" && REQUIRED_TEXTS[6] == "signing_certificate_var";
    Provider(TextOf(app, "provider_name"), TextOf(app, "client_id"), TextOf(app, "client_secret_var"),
      TextOf(app, "signing_certificate_var"), if app.grantTypes == Some([]) then None else app.grantTypes,
      app.redirectUris.value)
  }

  function ApplicationOf(app: App): Application
    requires Complete(app)
  {
    assert REQUIRED_TEXTS[0] == "name" && REQUIRED_TEXTS[3] == "launch_url";
    Application(SlugOf(app), TextOf(app, "name"), TextOf(app, "launch_url"), ProviderId(app))
  }

  predicate Grouped(app: App) {
    app.group.Some? && app.group.value != ""
  }

  predicate OptedIn(app: App) {
    app.verifyAgent == Given(true)
  }

  function PolicyOf(app: App): string {
    if app.policy.Some? then app.policy.value else "always-allow"
  }

  predicate HasName(mappings: seq<Mapping>, name: string) {
    exists i | 0 <= i < |mappings| :: mappings[i].name == name
  }

  /** The mappings whose name no earlier mapping has. */
  function FirstSeen(mappings: seq<Mapping>): seq<Mapping> {
    if mappings == [] then []
    else
      var front, last := FirstSeen(mappings[..|mappings| - 1]), mappings[|mappings| - 1];
      if HasName(front, last.name) then front else front + [last]
  }

  function ScopeSection(slugify: string -> string, scopes: seq<Mapping>): (r: seq<Entry>)
    ensures |r| == |scopes|
    ensures forall i | 0 <= i < |r| :: r[i] == ScopeEntry(ScopeId(slugify, scopes[i].name), scopes[i])
  {
    seq(|scopes|, i requires 0 <= i < |scopes| => ScopeEntry(ScopeId(slugify, scopes[i].name), scopes[i]))
  }

  function ScopeRefs(slugify: string -> string, app: App): (r: seq<string>)
    ensures |r| == |app.scopes| && forall i | 0 <= i < |r| :: r[i] == ScopeId(slugify, app.scopes[i].name)
  {
    seq(|app.scopes|, i requires 0 <= i < |app.scopes| => ScopeId(slugify, app.scopes[i].name))
  }

  function Admission(app: App): seq<Entry>
    requires Complete(app)
  {
    if Grouped(app) then
      [Gone(AppId(app), 0), Present(AppId(app), 1, Group(app.group.value)), Present(AppId(app), 2, Group("admins"))]
    else
      [Present(AppId(app), 0, Policy(PolicyOf(app)))]
  }

  function AgentEntry(app: App): Entry
    requires Complete(app)
  {
    if OptedIn(app) then Present(AppId(app), 3, User(VERIFY_AGENT)) else Gone(AppId(app), 3)
  }

  function AppBlock(slugify: string -> string, app: App): seq<Entry>
    requires Complete(app)
  {
    [ProviderEntry(ProviderId(app), ProviderOf(app), ScopeRefs(slugify, app)),
      ApplicationEntry(AppId(app), ApplicationOf(app))]
    + Admission(app) + [AgentEntry(app)]
  }

  function Blocks(slugify: string -> string, apps: seq<App>): seq<Entry>
    requires AllComplete(apps)
  {
    if apps == [] then [] else Blocks(slugify, apps[..|apps| - 1]) + AppBlock(slugify, apps[|apps| - 1])
  }

  function Compile(slugify: string -> string, apps: seq<App>): seq<Entry>
    requires AllComplete(apps)
  {
    ScopeSection(slugify, FirstSeen(AllMappings(apps))) + Blocks(slugify, apps)
  }

  lemma FirstSeenStep(mappings: seq<Mapping>, m: Mapping)
    ensures FirstSeen(mappings + [m]) ==
      if HasName(FirstSeen(mappings), m.name) then FirstSeen(mappings) else FirstSeen(mappings) + [m]
  {
    assert (mappings + [m])[..|mappings|] == mappings;
  }

  /** The names of the mappings collected so far. */
  ghost predicate NamesOf(seen: set<string>, ordered: seq<Mapping>) {
    forall n :: n in seen <==> HasName(ordered, n)
  }

  lemma NamesOfSnoc(seen: set<string>, ordered: seq<Mapping>, m: Mapping)
    requires NamesOf(seen, ordered)
    ensures NamesOf(seen + {m.name}, ordered + [m])
  {
    forall n
      ensures n in seen + {m.name} <==> HasName(ordered + [m], n)
    {
      if HasName(ordered, n) {
        var i :| 0 <= i < |ordered| && ordered[i].name == n;
        assert (ordered + [m])[i].name == n;
      }
      if n == m.name {
        assert (ordered + [m])[|ordered|].name == n;
      }
    }
  }

  /** The inner loop: one app's mappings. */
  method CollectScopes(seen: set<string>, ordered: seq<Mapping>, scopes: seq<Mapping>, ghost before: seq<Mapping>)
    returns (seen': set<string>, ordered': seq<Mapping>)
    requires ordered == FirstSeen(before) && NamesOf(seen, ordered)
    ensures ordered' == FirstSeen(before + scopes) && NamesOf(seen', ordered')
  {
    hide NamesOf, FirstSeen;
    seen', ordered' := seen, ordered;
    assert before + scopes[..0] == before;
    for k := 0 to |scopes|
      invariant ordered' == FirstSeen(before + scopes[..k]) && NamesOf(seen', ordered')
    {
      FirstSeenStep(before + scopes[..k], scopes[k]);
      assert before + scopes[..k + 1] == before + scopes[..k] + [scopes[k]];
      NamesOfMember(seen', ordered', scopes[k].name);
      if scopes[k].name !in seen' {
        NamesOfSnoc(seen', ordered', scopes[k]);
        seen' := seen' + {scopes[k].name};
        ordered' := ordered' + [scopes[k]];
      }
    }
    assert scopes[..|scopes|] == scopes;
  }

  lemma NamesOfMember(seen: set<string>, ordered: seq<Mapping>, n: string)
    requires NamesOf(seen, ordered)
    ensures n in seen <==> HasName(ordered, n)
  {
  }

  /** The program's loops: collect the mappings first seen, then emit app by app. */
  method Generate(slugify: string -> string, apps: seq<App>) returns (entries: seq<Entry>)
    requires AllComplete(apps)
    ensures entries == Compile(slugify, apps)
  {
    hide NamesOf, FirstSeen, AppBlock;
    var seen: set<string>, ordered: seq<Mapping> := {}, [];
    NothingSeen();
    for i := 0 to |apps|
      invariant ordered == FirstSeen(AllMappings(apps[..i])) && NamesOf(seen, ordered)
    {
      assert apps[..i + 1][..i] == apps[..i];
      seen, ordered := CollectScopes(seen, ordered, apps[i].scopes, AllMappings(apps[..i]));
    }
    assert apps[..|apps|] == apps;
    entries := ScopeSection(slugify, ordered);
    for i := 0 to |apps|
      invariant AllComplete(apps[..i])
      invariant entries == ScopeSection(slugify, ordered) + Blocks(slugify, apps[..i])
    {
      assert apps[..i + 1][..i] == apps[..i];
      entries := entries + AppBlock(slugify, apps[i]);
    }
  }

  lemma NothingSeen()
    ensures FirstSeen([]) == [] && NamesOf({}, [])
  {
  }

  // ----- References -----

  function Defines(e: Entry): Option<string> {
    match e
    case ScopeEntry(id, _) => Some(id)
    case ProviderEntry(id, _, _) => Some(id)
    case ApplicationEntry(id, _) => Some(id)
    case Present(_, _, _) => None
    case Gone(_, _) => None
  }

  /** The ids an entry refers to by KeyOf. */
  function Refs(e: Entry): seq<string> {
    match e
    case ScopeEntry(_, _) => []
    case ProviderEntry(_, _, scopes) => scopes
    case ApplicationEntry(_, application) => [application.provider]
    case Present(target, _, _) => [target]
    case Gone(target, _) => [target]
  }

  ghost predicate DefinedIn(entries: seq<Entry>, id: string) {
    exists j | 0 <= j < |entries| :: Defines(entries[j]) == Some(id)
  }

  /** Exactly one entry defines the id, and it stands before entry `i`. */
  ghost predicate ResolvesOnce(entries: seq<Entry>, i: int, id: string) {
    exists j | 0 <= j < i && j < |entries| && Defines(entries[j]) == Some(id) ::
      forall k | 0 <= k < |entries| && Defines(entries[k]) == Some(id) :: k == j
  }

  ghost predicate AllResolveOnce(entries: seq<Entry>) {
    forall i, id | 0 <= i < |entries| && id in Refs(entries[i]) :: ResolvesOnce(entries, i, id)
  }

  /** Every reference has a definition before it. */
  ghost predicate RefsBackward(entries: seq<Entry>) {
    forall i, id | 0 <= i < |entries| && id in Refs(entries[i]) :: DefinedIn(entries[..i], id)
  }

  ghost predicate DistinctIds(entries: seq<Entry>) {
    forall j, k | 0 <= j < k < |entries| && Defines(entries[j]).Some? :: Defines(entries[j]) != Defines(entries[k])
  }

  lemma BackwardAndDistinct(entries: seq<Entry>)
    requires RefsBackward(entries) && DistinctIds(entries)
    ensures AllResolveOnce(entries)
  {
    forall i, id | 0 <= i < |entries| && id in Refs(entries[i])
      ensures ResolvesOnce(entries, i, id)
    {
      assert DefinedIn(entries[..i], id);
      var j :| 0 <= j < i && Defines(entries[..i][j]) == Some(id);
      assert Defines(entries[j]) == Some(id);
    }
  }

  lemma DefinedInConcat(a: seq<Entry>, b: seq<Entry>, id: string)
    ensures DefinedIn(a + b, id) <==> DefinedIn(a, id) || DefinedIn(b, id)
  {
    if DefinedIn(a, id) {
      var j :| 0 <= j < |a| && Defines(a[j]) == Some(id);
      assert (a + b)[j] == a[j];
    }
    if DefinedIn(b, id) {
      var j :| 0 <= j < |b| && Defines(b[j]) == Some(id);
      assert (a + b)[|a| + j] == b[j];
    }
  }

  /** Appending entries whose references are defined so far or earlier among themselves. */
  lemma AppendBackward(a: seq<Entry>, b: seq<Entry>)
    requires RefsBackward(a)
    requires forall i, id | 0 <= i < |b| && id in Refs(b[i]) :: DefinedIn(a, id) || DefinedIn(b[..i], id)
    ensures RefsBackward(a + b)
  {
    var all := a + b;
    forall i, id | 0 <= i < |all| && id in Refs(all[i])
      ensures DefinedIn(all[..i], id)
    {
      if i < |a| {
        assert all[..i] == a[..i];
      } else {
        assert all[..i] == a + b[..i - |a|];
        DefinedInConcat(a, b[..i - |a|], id);
      }
    }
  }

  /** Appending entries that define other ids. */
  lemma AppendDistinct(a: seq<Entry>, b: seq<Entry>)
    requires DistinctIds(a) && DistinctIds(b)
    requires forall k | 0 <= k < |b| && Defines(b[k]).Some? :: !DefinedIn(a, Defines(b[k]).value)
    ensures DistinctIds(a + b)
  {
    var all := a + b;
    forall j, k | 0 <= j < k < |all| && Defines(all[j]).Some?
      ensures Defines(all[j]) != Defines(all[k])
    {
      if j < |a| <= k && Defines(all[k]).Some? {
        assert !DefinedIn(a, Defines(b[k - |a|]).value);
      }
    }
  }

  // ----- The scope section -----

  lemma {:induction false} FirstSeenIsSome(mappings: seq<Mapping>)
    ensures forall m | m in FirstSeen(mappings) :: m in mappings
    ensures forall i, j | 0 <= i < j < |FirstSeen(mappings)| ::
      FirstSeen(mappings)[i].name != FirstSeen(mappings)[j].name
    decreases |mappings|
  {
    if mappings != [] {
      var front, last := mappings[..|mappings| - 1], mappings[|mappings| - 1];
      FirstSeenIsSome(front);
      assert mappings == front + [last];
    }
  }

  lemma {:induction false} FirstSeenHasAll(mappings: seq<Mapping>, m: Mapping)
    requires m in mappings
    ensures HasName(FirstSeen(mappings), m.name)
    decreases |mappings|
  {
    var front, last := mappings[..|mappings| - 1], mappings[|mappings| - 1];
    assert mappings == front + [last];
    var firsts := FirstSeen(mappings);
    if m in front {
      FirstSeenHasAll(front, m);
      var i :| 0 <= i < |FirstSeen(front)| && FirstSeen(front)[i].name == m.name;
      assert firsts[i].name == m.name;
    } else if !HasName(FirstSeen(front), last.name) {
      assert firsts[|firsts| - 1] == m;
    }
  }

  lemma {:induction false} MappingsOf(apps: seq<App>, m: Mapping)
    ensures m in AllMappings(apps) <==> exists app | app in apps :: m in app.scopes
    decreases |apps|
  {
    if apps != [] {
      var front, last := apps[..|apps| - 1], apps[|apps| - 1];
      assert apps == front + [last];
      MappingsOf(front, m);
      assert last in apps;
    }
  }

  /** The custom scope names of the manifest have pairwise different ids. */
  ghost predicate DistinctScopeIds(slugify: string -> string, apps: seq<App>) {
    forall m, n | m in AllMappings(apps) && n in AllMappings(apps) && m.name != n.name ::
      ScopeId(slugify, m.name) != ScopeId(slugify, n.name)
  }

  /** Ids of the three kinds never meet. */
  lemma KindsDiffer(s: string, t: string)
    ensures "scope-" + s != "app-" + t && "scope-" + s != "provider-" + t && "app-" + s != "provider-" + t
    ensures "app-" + s == "app-" + t ==> s == t
    ensures "provider-" + s == "provider-" + t ==> s == t
  {
    assert ("scope-" + s)[0] == 's' && ("app-" + t)[0] == 'a' && ("provider-" + t)[0] == 'p' && ("app-" + s)[0] == 'a';
    assert ("app-" + s)[4..] == s && ("app-" + t)[4..] == t;
    assert ("provider-" + s)[9..] == s && ("provider-" + t)[9..] == t;
  }

  lemma BlockRefs(slugify: string -> string, app: App, i: nat, id: string)
    requires Complete(app) && i < |AppBlock(slugify, app)| && id in Refs(AppBlock(slugify, app)[i])
    ensures (i == 0 && exists m | m in app.scopes :: id == ScopeId(slugify, m.name))
      || DefinedIn(AppBlock(slugify, app)[..i], id)
  {
    var block := AppBlock(slugify, app);
    if i == 0 {
      var k :| 0 <= k < |ScopeRefs(slugify, app)| && ScopeRefs(slugify, app)[k] == id;
      assert app.scopes[k] in app.scopes;
    } else if i == 1 {
      assert Defines(block[..i][0]) == Some(id);
    } else {
      assert Defines(block[..i][1]) == Some(id);
    }
  }

  lemma BlockIds(slugify: string -> string, app: App)
    requires Complete(app)
    ensures DistinctIds(AppBlock(slugify, app))
    ensures forall k | 0 <= k < |AppBlock(slugify, app)| && Defines(AppBlock(slugify, app)[k]).Some? ::
      Defines(AppBlock(slugify, app)[k]).value == if k == 0 then ProviderId(app) else AppId(app)
    ensures forall id :: DefinedIn(AppBlock(slugify, app), id) <==> id == ProviderId(app) || id == AppId(app)
  {
    KindsDiffer(SlugOf(app), SlugOf(app));
    var block := AppBlock(slugify, app);
    assert Defines(block[0]) == Some(ProviderId(app)) && Defines(block[1]) == Some(AppId(app));
  }

  lemma NothingDefined(id: string)
    ensures !DefinedIn([], id)
  {
  }

  /** Ids defined by the blocks of some apps. */
  lemma {:induction false} BlocksIds(slugify: string -> string, apps: seq<App>, id: string)
    requires AllComplete(apps)
    ensures DefinedIn(Blocks(slugify, apps), id) <==>
      exists i | 0 <= i < |apps| :: id == ProviderId(apps[i]) || id == AppId(apps[i])
    decreases |apps|
  {
    hide AppBlock, ProviderId, AppId, DefinedIn;
    if apps == [] {
      NothingDefined(id);
    } else {
      var n := |apps| - 1;
      BlocksIds(slugify, apps[..n], id);
      BlockIds(slugify, apps[n]);
      DefinedInConcat(Blocks(slugify, apps[..n]), AppBlock(slugify, apps[n]), id);
      assert forall i | 0 <= i < n :: apps[..n][i] == apps[i];
    }
  }

  /** The section defines the id of every mapping of the manifest, and no other ids. */
  lemma SectionIds(slugify: string -> string, mappings: seq<Mapping>, id: string)
    ensures DefinedIn(ScopeSection(slugify, FirstSeen(mappings)), id)
      <==> exists m | m in mappings :: id == ScopeId(slugify, m.name)
  {
    hide FirstSeen, ScopeId;
    FirstSeenIsSome(mappings);
    var firsts := FirstSeen(mappings);
    var section := ScopeSection(slugify, firsts);
    if m :| m in mappings && id == ScopeId(slugify, m.name) {
      FirstSeenHasAll(mappings, m);
      var k :| 0 <= k < |firsts| && firsts[k].name == m.name;
      assert Defines(section[k]) == Some(id);
    }
    if DefinedIn(section, id) {
      var j :| 0 <= j < |section| && Defines(section[j]) == Some(id);
      assert firsts[j] in mappings;
    }
  }

  /** Every reference of the output has its definition before it. */
  lemma {:induction false} OutputBackward(slugify: string -> string, section: seq<Entry>, mappings: seq<Mapping>,
      apps: seq<App>)
    requires AllComplete(apps) && section == ScopeSection(slugify, FirstSeen(mappings))
    requires forall app, m | app in apps && m in app.scopes :: m in mappings
    ensures RefsBackward(section + Blocks(slugify, apps))
    decreases |apps|
  {
    hide RefsBackward, DefinedIn, AppBlock, FirstSeen;
    if apps == [] {
      assert section + Blocks(slugify, apps) == section;
      NoRefs(slugify, FirstSeen(mappings));
    } else {
      var n := |apps| - 1;
      var front, last := apps[..n], apps[n];
      assert apps == front + [last] && last in apps;
      OutputBackward(slugify, section, mappings, front);
      var earlier, block := section + Blocks(slugify, front), AppBlock(slugify, last);
      assert section + Blocks(slugify, apps) == earlier + block;
      forall i, id | 0 <= i < |block| && id in Refs(block[i])
        ensures DefinedIn(earlier, id) || DefinedIn(block[..i], id)
      {
        BlockRefs(slugify, last, i, id);
        SectionIds(slugify, mappings, id);
        DefinedInConcat(section, Blocks(slugify, front), id);
      }
      AppendBackward(earlier, block);
    }
  }

  lemma NoRefs(slugify: string -> string, scopes: seq<Mapping>)
    ensures RefsBackward(ScopeSection(slugify, scopes))
  {
  }

  lemma {:induction false} OutputDistinct(slugify: string -> string, section: seq<Entry>, mappings: seq<Mapping>,
      apps: seq<App>)
    requires AllComplete(apps) && section == ScopeSection(slugify, FirstSeen(mappings))
    requires DistinctSlugs(apps) && DistinctIds(section)
    ensures DistinctIds(section + Blocks(slugify, apps))
    decreases |apps|
  {
    hide DistinctIds, DefinedIn, AppBlock, FirstSeen;
    if apps == [] {
      assert section + Blocks(slugify, apps) == section;
    } else {
      var n := |apps| - 1;
      OutputDistinct(slugify, section, mappings, apps[..n]);
      var earlier, block := section + Blocks(slugify, apps[..n]), AppBlock(slugify, apps[n]);
      assert section + Blocks(slugify, apps) == earlier + block;
      forall k | 0 <= k < |block| && Defines(block[k]).Some?
        ensures !DefinedIn(earlier, Defines(block[k]).value)
      {
        NewIds(slugify, section, mappings, apps, k);
      }
      BlockIds(slugify, apps[n]);
      AppendDistinct(earlier, block);
    }
  }

  lemma NewIds(slugify: string -> string, section: seq<Entry>, mappings: seq<Mapping>, apps: seq<App>, k: nat)
    requires apps != [] && AllComplete(apps) && DistinctSlugs(apps)
    requires section == ScopeSection(slugify, FirstSeen(mappings))
    requires k < |AppBlock(slugify, apps[|apps| - 1])| && Defines(AppBlock(slugify, apps[|apps| - 1])[k]).Some?
    ensures !DefinedIn(section + Blocks(slugify, apps[..|apps| - 1]),
      Defines(AppBlock(slugify, apps[|apps| - 1])[k]).value)
  {
    var n := |apps| - 1;
    var id := Defines(AppBlock(slugify, apps[n])[k]).value;
    BlockIds(slugify, apps[n]);
    DefinedInConcat(section, Blocks(slugify, apps[..n]), id);
    SectionIds(slugify, mappings, id);
    BlocksIds(slugify, apps[..n], id);
    forall m: Mapping | m in mappings
      ensures id != ScopeId(slugify, m.name)
    {
      KindsDiffer(slugify(m.name), SlugOf(apps[n]));
    }
    forall i | 0 <= i < n
      ensures id != ProviderId(apps[..n][i]) && id != AppId(apps[..n][i])
    {
      KindsDiffer(SlugOf(apps[i]), SlugOf(apps[n]));
      KindsDiffer(SlugOf(apps[n]), SlugOf(apps[i]));
    }
  }

  lemma {:induction false} BlockIsInBlocks(slugify: string -> string, apps: seq<App>, app: App, e: Entry)
    requires AllComplete(apps) && app in apps && e in AppBlock(slugify, app)
    ensures e in Blocks(slugify, apps)
    decreases |apps|
  {
    var n := |apps| - 1;
    assert apps == apps[..n] + [apps[n]];
    if app in apps[..n] {
      BlockIsInBlocks(slugify, apps[..n], app, e);
    }
  }

  lemma EveryScopeIsMapped(apps: seq<App>)
    ensures forall app, m | app in apps && m in app.scopes :: m in AllMappings(apps)
  {
    forall app, m | app in apps && m in app.scopes
      ensures m in AllMappings(apps)
    {
      MappingsOf(apps, m);
    }
  }

  lemma SectionIdsDistinct(slugify: string -> string, apps: seq<App>)
    requires DistinctScopeIds(slugify, apps)
    ensures DistinctIds(ScopeSection(slugify, FirstSeen(AllMappings(apps))))
  {
    var firsts := FirstSeen(AllMappings(apps));
    FirstSeenIsSome(AllMappings(apps));
    forall j, k | 0 <= j < k < |firsts|
      ensures ScopeId(slugify, firsts[j].name) != ScopeId(slugify, firsts[k].name)
    {
      assert firsts[j] in firsts && firsts[k] in firsts;
    }
  }

  /** Some entry of the section defines the id of each mapping of the manifest. */
  lemma MappingDefined(slugify: string -> string, apps: seq<App>, m: Mapping) returns (k: nat, kept: Mapping)
    requires AllComplete(apps) && m in AllMappings(apps)
    ensures var entries := Compile(slugify, apps);
      k < |entries| && entries[k] == ScopeEntry(ScopeId(slugify, m.name), kept) && kept.name == m.name
  {
    hide FirstSeen, Blocks, AllMappings, ScopeId;
    var firsts := FirstSeen(AllMappings(apps));
    FirstSeenHasAll(AllMappings(apps), m);
    k :| 0 <= k < |firsts| && firsts[k].name == m.name;
    kept := firsts[k];
  }

  /** Some entry refers to the id of each mapping of the manifest. */
  lemma MappingReferred(slugify: string -> string, apps: seq<App>, m: Mapping) returns (i: nat)
    requires AllComplete(apps) && m in AllMappings(apps)
    ensures var entries := Compile(slugify, apps);
      i < |entries| && ScopeId(slugify, m.name) in Refs(entries[i])
  {
    hide Compile, AllMappings, ScopeId;
    MappingsOf(apps, m);
    var app :| app in apps && m in app.scopes;
    ProviderInOutput(slugify, apps, app);
    var entries := Compile(slugify, apps);
    i :| 0 <= i < |entries| && entries[i] == AppBlock(slugify, app)[0];
    var k :| 0 <= k < |app.scopes| && app.scopes[k] == m;
    assert ScopeRefs(slugify, app)[k] == ScopeId(slugify, m.name);
  }

  /** Two names with one id put two definitions of it into the output, and a reference to it. */
  lemma CollisionIsAmbiguous(slugify: string -> string, apps: seq<App>, m: Mapping, n: Mapping)
    requires AllComplete(apps) && m in AllMappings(apps) && n in AllMappings(apps)
    requires m.name != n.name && ScopeId(slugify, m.name) == ScopeId(slugify, n.name)
    ensures !AllResolveOnce(Compile(slugify, apps))
  {
    hide Compile, AllMappings, ResolvesOnce, ScopeId, Refs;
    var j, kept := MappingDefined(slugify, apps, m);
    var k, other := MappingDefined(slugify, apps, n);
    var i := MappingReferred(slugify, apps, m);
    TwoDefinitions(Compile(slugify, apps), i, ScopeId(slugify, m.name), j, k);
  }

  lemma TwoDefinitions(entries: seq<Entry>, i: nat, id: string, j: nat, k: nat)
    requires j < |entries| && k < |entries| && j != k && Defines(entries[j]) == Defines(entries[k]) == Some(id)
    ensures !ResolvesOnce(entries, i, id)
  {
  }

  lemma ProviderInOutput(slugify: string -> string, apps: seq<App>, app: App)
    requires AllComplete(apps) && app in apps
    ensures Complete(app) && AppBlock(slugify, app)[0] in Compile(slugify, apps)
  {
    hide FirstSeen, Blocks;
    BlockIsInBlocks(slugify, apps, app, AppBlock(slugify, app)[0]);
  }

  /** In the output of a manifest that is in order, every KeyOf reference names an id defined
      exactly once, and earlier, exactly when the custom scope names have different ids. */
  lemma ReferencesResolveIff(slugify: string -> string, apps: seq<App>)
    requires ManifestOk(apps)
    ensures AllResolveOnce(Compile(slugify, apps)) <==> DistinctScopeIds(slugify, apps)
  {
    hide FirstSeen, Blocks, ManifestOk;
    ManifestIsDistinct(apps);
    if DistinctScopeIds(slugify, apps) {
      var mappings := AllMappings(apps);
      EveryScopeIsMapped(apps);
      OutputBackward(slugify, ScopeSection(slugify, FirstSeen(mappings)), mappings, apps);
      SectionIdsDistinct(slugify, apps);
      OutputDistinct(slugify, ScopeSection(slugify, FirstSeen(mappings)), mappings, apps);
      BackwardAndDistinct(Compile(slugify, apps));
    } else {
      var m, n :| m in AllMappings(apps) && n in AllMappings(apps) && m.name != n.name
        && ScopeId(slugify, m.name) == ScopeId(slugify, n.name);
      CollisionIsAmbiguous(slugify, apps, m, n);
    }
  }

  /** With the program's own slugs, two scope names have one id exactly when they have the same
      words. */
  lemma SameIdIffSameWords(alphabet: Slug.Alphabet, m: string, n: string)
    ensures ScopeId(v => Slug.Slugify(alphabet, v), m) == ScopeId(v => Slug.Slugify(alphabet, v), n)
      <==> Slug.Words(Slug.Dashed(alphabet, m)) == Slug.Words(Slug.Dashed(alphabet, n))
  {
    Slug.SlugIsJoinedWords(alphabet, m, n);
    assert ("scope-" + Slug.Slugify(alphabet, m))[6..] == Slug.Slugify(alphabet, m);
    assert ("scope-" + Slug.Slugify(alphabet, n))[6..] == Slug.Slugify(alphabet, n);
  }

  const TEXTS := map["name" := "n", "slug" := "s", "provider_name" := "p", "launch_url" := "u", "client_id" := "c",
    "client_secret_var" := "v", "signing_certificate_var" := "k"]

  /** One app with two scopes whose names differ by case and a blank only. */
  const COLLIDING := App(TEXTS, Some([]), None, Absent,
    [Mapping("A b", "x", None, "1"), Mapping("a-b", "y", None, "2")], None, None)

  /** The validator accepts it, but its references do not resolve. */
  lemma AcceptedButAmbiguous(slugify: string -> string)
    requires slugify == (v => Slug.Slugify(Slug.ASCII, v))
    ensures ManifestOk([COLLIDING]) && !AllResolveOnce(Compile(slugify, [COLLIDING]))
  {
    hide Compile, AllResolveOnce, AppOk, FirstSeen;
    var m, n := COLLIDING.scopes[0], COLLIDING.scopes[1];
    assert AllMappings([COLLIDING]) == [m, n] by {
      assert [COLLIDING][..0] == [];
    }
    assert m.name[0] != n.name[0];
    CollidingIsOk();
    CollidingSlugs();
    CollisionIsAmbiguous(slugify, [COLLIDING], m, n);
  }

  lemma CollidingIsOk()
    ensures AppOk(COLLIDING)
  {
  }

  lemma CollidingSlugs()
    ensures Slug.Slugify(Slug.ASCII, "A b") == Slug.Slugify(Slug.ASCII, "a-b")
  {
    assert Slug.Dashed(Slug.ASCII, "A b") == "a-b" == Slug.Dashed(Slug.ASCII, "a-b");
  }

  lemma ManifestIsDistinct(apps: seq<App>)
    requires ManifestOk(apps)
    ensures AllComplete(apps) && DistinctSlugs(apps) && DistinctClients(apps) && Consistent(AllMappings(apps))
  {
  }

  /** Each app's provider refers to its own mappings in its own order, and each such reference
      means the app's own definition, whichever app's copy was kept. */
  lemma ScopesKeepMeaning(slugify: string -> string, apps: seq<App>, app: App, k: nat)
    requires ManifestOk(apps) && DistinctScopeIds(slugify, apps) && app in apps && k < |app.scopes|
    ensures Complete(app)
    ensures exists e | e in Compile(slugify, apps) && e.ProviderEntry? && OwnProvider(e.provider, app) ::
      e.id == "provider-" + SlugOf(app) && e.scopes == ScopeRefs(slugify, app)
    ensures ScopeEntry(ScopeRefs(slugify, app)[k], app.scopes[k]) in Compile(slugify, apps)
    ensures forall e | e in Compile(slugify, apps) && Defines(e) == Some(ScopeRefs(slugify, app)[k]) ::
      e == ScopeEntry(ScopeRefs(slugify, app)[k], app.scopes[k])
  {
    hide FirstSeen, Blocks, ManifestOk, AppBlock, ScopeId, DistinctIds, AllMappings;
    ManifestIsDistinct(apps);
    var m, mappings, entries := app.scopes[k], AllMappings(apps), Compile(slugify, apps);
    ProviderInOutput(slugify, apps, app);
    BlockIsOwn(slugify, app);
    EveryScopeIsMapped(apps);
    FirstSeenHasAll(mappings, m);
    FirstSeenIsSome(mappings);
    var firsts := FirstSeen(mappings);
    var f :| 0 <= f < |firsts| && firsts[f].name == m.name;
    assert firsts[f] in mappings && firsts[f] == m;
    var own := ScopeEntry(ScopeId(slugify, m.name), m);
    assert entries[f] == own;
    SectionIdsDistinct(slugify, apps);
    OutputDistinct(slugify, ScopeSection(slugify, firsts), mappings, apps);
    OneDefinition(entries, f);
  }

  lemma OneDefinition(entries: seq<Entry>, f: nat)
    requires DistinctIds(entries) && f < |entries| && Defines(entries[f]).Some?
    ensures forall e | e in entries && Defines(e) == Defines(entries[f]) :: e == entries[f]
  {
    hide Defines;
    forall e | e in entries && Defines(e) == Defines(entries[f])
      ensures e == entries[f]
    {
      var j :| 0 <= j < |entries| && entries[j] == e;
    }
  }

  // ----- What the entries of an app say -----

  /** The provider carries the app's own settings; an empty list of grant types is left out. */
  predicate OwnProvider(p: Provider, app: App) {
    && (forall f | f in ["provider_name", "client_id", "client_secret_var", "signing_certificate_var"] ::
          f in app.texts)
    && p.name == app.texts["provider_name"] && p.clientId == app.texts["client_id"]
    && p.secretVar == app.texts["client_secret_var"] && p.certificateVar == app.texts["signing_certificate_var"]
    && Some(p.redirectUris) == app.redirectUris
    && (match p.grantTypes
        case Some(types) => app.grantTypes == Some(types) && types != []
        case None => app.grantTypes.None? || app.grantTypes == Some([]))
  }

  /** The application has the app's own slug, name and launch URL. */
  predicate OwnApplication(a: Application, app: App) {
    && (forall f | f in ["slug", "name", "launch_url"] :: f in app.texts)
    && a.slug == app.texts["slug"] && a.name == app.texts["name"] && a.launchUrl == app.texts["launch_url"]
  }

  lemma BlockIsOwn(slugify: string -> string, app: App)
    requires Complete(app)
    ensures var block := AppBlock(slugify, app);
      && |block| >= 2 && ProviderOf(app).name == ProviderNameOf(app)
      && block[0] == ProviderEntry(ProviderId(app), ProviderOf(app), ScopeRefs(slugify, app))
      && block[1] == ApplicationEntry(AppId(app), ApplicationOf(app))
      && OwnProvider(ProviderOf(app), app) && OwnApplication(ApplicationOf(app), app)
      && block[1].application.provider == block[0].id == ProviderId(app)
      && (forall j | 0 <= j < |block| && block[j].ApplicationEntry? :: j == 1)
  {
    assert REQUIRED_TEXTS[0] == "name" && REQUIRED_TEXTS[1] == "slug" && REQUIRED_TEXTS[2] == "provider_name";
    assert REQUIRED_TEXTS[3] == "launch_url" && REQUIRED_TEXTS[4] == "client_id";
    assert REQUIRED_TEXTS[5] == "client_secret_var" && REQUIRED_TEXTS[6] == "signing_certificate_var";
  }

  /** At `k` stands the app's provider; next to it the application with the app's slug, the only
      one with that slug, which refers to that provider, the only entry of that id. */
  ghost predicate StandsAt(entries: seq<Entry>, app: App, k: int) {
    && 0 <= k < |entries| - 1
    && entries[k].ProviderEntry? && OwnProvider(entries[k].provider, app)
    && entries[k + 1].ApplicationEntry? && OwnApplication(entries[k + 1].application, app)
    && entries[k + 1].application.provider == entries[k].id
    && (forall j | 0 <= j < |entries| && Defines(entries[j]) == Some(entries[k].id) :: j == k)
    && (forall j | 0 <= j < |entries| && entries[j].ApplicationEntry? && "slug" in app.texts
          && entries[j].application.slug == app.texts["slug"] :: j == k + 1)
  }

  ghost predicate NoneOf(entries: seq<Entry>, slug: string) {
    && !DefinedIn(entries, "provider-" + slug)
    && forall j | 0 <= j < |entries| && entries[j].ApplicationEntry? :: entries[j].application.slug != slug
  }

  lemma StandsInBlock(slugify: string -> string, app: App, before: seq<Entry>)
    requires Complete(app) && NoneOf(before, SlugOf(app))
    ensures StandsAt(before + AppBlock(slugify, app), app, |before|)
  {
    hide OwnProvider, OwnApplication, AppBlock, ProviderOf, ApplicationOf, ScopeRefs;
    var block := AppBlock(slugify, app);
    var all, k := before + block, |before|;
    BlockIsOwn(slugify, app);
    BlockIds(slugify, app);
    OwnSlug(app);
    KindsDiffer(SlugOf(app), SlugOf(app));
    forall j | 0 <= j < |all|
      ensures Defines(all[j]) == Some(all[k].id) ==> j == k
      ensures all[j].ApplicationEntry? && all[j].application.slug == SlugOf(app) ==> j == k + 1
    {
      if j < k {
        assert all[j] == before[j];
      } else {
        assert all[j] == block[j - k];
      }
    }
  }

  lemma OwnSlug(app: App)
    requires Complete(app)
    ensures "slug" in app.texts && app.texts["slug"] == SlugOf(app)
  {
    assert REQUIRED_TEXTS[1] == "slug";
  }

  lemma StandsLater(slugify: string -> string, entries: seq<Entry>, app: App, k: int, other: App)
    requires Complete(app) && Complete(other) && SlugOf(app) != SlugOf(other)
    requires StandsAt(entries, app, k) && entries[k].id == ProviderId(app)
    ensures StandsAt(entries + AppBlock(slugify, other), app, k)
  {
    hide OwnProvider, OwnApplication, AppBlock, ProviderOf, ScopeRefs;
    var block := AppBlock(slugify, other);
    var all := entries + block;
    BlockIsOwn(slugify, other);
    BlockIds(slugify, other);
    OwnSlug(app);
    KindsDiffer(SlugOf(app), SlugOf(other));
    KindsDiffer(SlugOf(other), SlugOf(app));
    forall j | 0 <= j < |all|
      ensures Defines(all[j]) == Some(all[k].id) ==> j == k
      ensures all[j].ApplicationEntry? && all[j].application.slug == SlugOf(app) ==> j == k + 1
    {
      if j < |entries| {
        assert all[j] == entries[j];
      } else {
        assert all[j] == block[j - |entries|];
      }
    }
  }

  /** Apps with other slugs emit nothing of this slug. */
  lemma {:induction false} NoneOfOthers(slugify: string -> string, scopes: seq<Mapping>, apps: seq<App>, slug: string)
    requires AllComplete(apps) && forall i | 0 <= i < |apps| :: SlugOf(apps[i]) != slug
    ensures NoneOf(ScopeSection(slugify, scopes) + Blocks(slugify, apps), slug)
    decreases |apps|
  {
    hide AppBlock, NoneOf, SlugOf, Complete;
    var section := ScopeSection(slugify, scopes);
    var all := section + Blocks(slugify, apps);
    if apps == [] {
      assert all == section;
      SectionIsOfScopes(slugify, scopes, slug);
    } else {
      var n := |apps| - 1;
      var earlier := section + Blocks(slugify, apps[..n]);
      NoneOfOthers(slugify, scopes, apps[..n], slug);
      assert all == earlier + AppBlock(slugify, apps[n]);
      NoneOfOther(slugify, earlier, apps[n], slug);
    }
  }

  lemma NoneOfOther(slugify: string -> string, earlier: seq<Entry>, app: App, slug: string)
    requires Complete(app) && SlugOf(app) != slug && NoneOf(earlier, slug)
    ensures NoneOf(earlier + AppBlock(slugify, app), slug)
  {
    hide AppBlock, DefinedIn, OwnProvider, ProviderOf, ScopeRefs;
    var block := AppBlock(slugify, app);
    BlockIsOwn(slugify, app);
    BlockIds(slugify, app);
    DefinedInConcat(earlier, block, "provider-" + slug);
    KindsDiffer(SlugOf(app), slug);
    KindsDiffer(slug, SlugOf(app));
  }

  lemma SectionIsOfScopes(slugify: string -> string, scopes: seq<Mapping>, slug: string)
    ensures NoneOf(ScopeSection(slugify, scopes), slug)
  {
    forall i | 0 <= i < |scopes|
      ensures ScopeId(slugify, scopes[i].name) != "provider-" + slug
    {
      KindsDiffer(slugify(scopes[i].name), slug);
    }
  }

  lemma {:induction false} AppStands(slugify: string -> string, scopes: seq<Mapping>, apps: seq<App>, i: nat)
    returns (k: int)
    requires AllComplete(apps) && DistinctSlugs(apps) && i < |apps|
    ensures var entries := ScopeSection(slugify, scopes) + Blocks(slugify, apps);
      StandsAt(entries, apps[i], k) && entries[k].id == ProviderId(apps[i])
    decreases |apps|
  {
    hide StandsAt, AppBlock, NoneOf;
    var n := |apps| - 1;
    var earlier := ScopeSection(slugify, scopes) + Blocks(slugify, apps[..n]);
    assert ScopeSection(slugify, scopes) + Blocks(slugify, apps) == earlier + AppBlock(slugify, apps[n]);
    if i == n {
      NoneOfOthers(slugify, scopes, apps[..n], SlugOf(apps[n]));
      StandsInBlock(slugify, apps[n], earlier);
      BlockIsOwn(slugify, apps[n]);
      k := |earlier|;
    } else {
      k := AppStands(slugify, scopes, apps[..n], i);
      StandsMeans(earlier, apps[i], k);
      StandsLater(slugify, earlier, apps[i], k, apps[n]);
    }
  }

  lemma StandsMeans(entries: seq<Entry>, app: App, k: int)
    requires StandsAt(entries, app, k)
    ensures 0 <= k < |entries| - 1
  {
  }

  /** Each app of the manifest has its provider and its application in the output, with its own
      settings, name and launch URL, and no other entry goes by its slug or its provider's id. */
  lemma EveryAppStands(slugify: string -> string, apps: seq<App>, app: App)
    requires ManifestOk(apps) && app in apps
    ensures AllComplete(apps) && exists k :: StandsAt(Compile(slugify, apps), app, k)
  {
    hide ManifestOk, StandsAt, FirstSeen, Blocks;
    ManifestIsDistinct(apps);
    var i :| 0 <= i < |apps| && apps[i] == app;
    var k := AppStands(slugify, FirstSeen(AllMappings(apps)), apps, i);
    assert StandsAt(Compile(slugify, apps), app, k);
  }

  // ----- The meaning of the binding entries -----

  type Bindings = map<(string, int), Subject>

  function Lookup(table: Bindings, target: string, order: int): Option<Subject> {
    if (target, order) in table then Some(table[(target, order)]) else None
  }

  /** What a server does with one entry: set the binding, or remove it. */
  function ApplyEntry(table: Bindings, e: Entry): Bindings {
    match e
    case Present(target, order, subject) => table[(target, order) := subject]
    case Gone(target, order) => table - {(target, order)}
    case _ => table
  }

  function ApplyAll(table: Bindings, entries: seq<Entry>): Bindings {
    if entries == [] then table
    else ApplyEntry(ApplyAll(table, entries[..|entries| - 1]), entries[|entries| - 1])
  }

  lemma {:induction false} ApplyConcat(table: Bindings, a: seq<Entry>, b: seq<Entry>)
    ensures ApplyAll(table, a + b) == ApplyAll(ApplyAll(table, a), b)
    decreases |b|
  {
    if b == [] {
      assert a + b == a;
    } else {
      var n := |b| - 1;
      assert (a + b)[..|a + b| - 1] == a + b[..n];
      ApplyConcat(table, a, b[..n]);
    }
  }

  lemma {:induction false} ScopesBindNothing(slugify: string -> string, table: Bindings, scopes: seq<Mapping>)
    ensures ApplyAll(table, ScopeSection(slugify, scopes)) == table
    decreases |scopes|
  {
    if scopes != [] {
      var n := |scopes| - 1;
      assert ScopeSection(slugify, scopes)[..n] == ScopeSection(slugify, scopes[..n]);
      ScopesBindNothing(slugify, table, scopes[..n]);
    }
  }

  /** Who is admitted at each order of an application, given who was before: with a group that
      group and the admins, without one whoever the policy lets in, and the agent only by opt-in. */
  function Admitted(app: App, order: int, before: Option<Subject>): Option<Subject> {
    var group := if app.group == Some("") then None else app.group;
    match order
    case 0 =>
      if group.Some? then None
      else if app.policy.Some? then Some(Policy(app.policy.value))
      else Some(Policy("always-allow"))
    case 1 => if group.Some? then Some(Group(group.value)) else before
    case 2 => if group.Some? then Some(Group("admins")) else before
    case 3 => if app.verifyAgent == Given(true) then Some(User("verify-agent")) else None
    case _ => before
  }

  lemma EntryMeaning(table: Bindings, e: Entry, target: string, order: int)
    ensures Lookup(ApplyEntry(table, e), target, order) ==
      if e.Present? && e.target == target && e.order == order then Some(e.subject)
      else if e.Gone? && e.target == target && e.order == order then None
      else Lookup(table, target, order)
  {
  }

  lemma AdmissionMeaning(table: Bindings, app: App, target: string, order: int)
    requires Complete(app)
    ensures Lookup(ApplyAll(table, Admission(app)), target, order) ==
      if target == AppId(app) && order != 3 then Admitted(app, order, Lookup(table, target, order))
      else Lookup(table, target, order)
  {
    hide ApplyEntry, ApplyAll, Lookup, AppId, Complete;
    var entries := Admission(app);
    if Grouped(app) {
      var one := ApplyEntry(table, entries[0]);
      var two := ApplyEntry(one, entries[1]);
      ApplyTwo(table, entries[0], entries[1]);
      ApplySnoc(table, [entries[0], entries[1]], entries[2]);
      assert [entries[0], entries[1]] + [entries[2]] == entries;
      EntryMeaning(table, entries[0], target, order);
      EntryMeaning(one, entries[1], target, order);
      EntryMeaning(two, entries[2], target, order);
    } else {
      ApplySnoc(table, [], entries[0]);
      NothingApplied(table);
      assert [] + [entries[0]] == entries;
      EntryMeaning(table, entries[0], target, order);
    }
  }

  lemma BlockMeaning(slugify: string -> string, table: Bindings, app: App, target: string, order: int)
    requires Complete(app)
    ensures Lookup(ApplyAll(table, AppBlock(slugify, app)), target, order) ==
      if target == AppId(app) then Admitted(app, order, Lookup(table, target, order)) else Lookup(table, target, order)
  {
    hide ApplyAll, Lookup, AppId, Complete, Admission, ScopeRefs, ProviderId;
    var provider, application := AppBlock(slugify, app)[0], AppBlock(slugify, app)[1];
    ApplyTwo(table, provider, application);
    ApplyConcat(table, [provider, application], Admission(app));
    ApplySnoc(table, [provider, application] + Admission(app), AgentEntry(app));
    AdmissionMeaning(table, app, target, order);
    EntryMeaning(ApplyAll(table, Admission(app)), AgentEntry(app), target, order);
  }

  lemma ApplySnoc(table: Bindings, a: seq<Entry>, e: Entry)
    ensures ApplyAll(table, a + [e]) == ApplyEntry(ApplyAll(table, a), e)
  {
    assert (a + [e])[..|a|] == a;
  }

  lemma ApplyTwo(table: Bindings, d: Entry, e: Entry)
    ensures ApplyAll(table, [d, e]) == ApplyEntry(ApplyEntry(table, d), e)
  {
    NothingApplied(table);
    ApplySnoc(table, [], d);
    ApplySnoc(table, [d], e);
    assert [] + [d] == [d] && [d] + [e] == [d, e];
  }

  lemma NothingApplied(table: Bindings)
    ensures ApplyAll(table, []) == table
  {
  }

  lemma {:induction false} BlocksMeaning(slugify: string -> string, table: Bindings, apps: seq<App>, target: string,
      order: int)
    requires AllComplete(apps) && DistinctSlugs(apps)
    ensures var after := Lookup(ApplyAll(table, Blocks(slugify, apps)), target, order);
      && (forall i | 0 <= i < |apps| && AppId(apps[i]) == target ::
        after == Admitted(apps[i], order, Lookup(table, target, order)))
      && ((forall i | 0 <= i < |apps| :: AppId(apps[i]) != target) ==> after == Lookup(table, target, order))
    decreases |apps|
  {
    hide AppBlock, ApplyAll, Admitted, Lookup;
    if apps == [] {
      NothingApplied(table);
    } else {
      var n := |apps| - 1;
      BlocksMeaning(slugify, table, apps[..n], target, order);
      ApplyConcat(table, Blocks(slugify, apps[..n]), AppBlock(slugify, apps[n]));
      BlockMeaning(slugify, ApplyAll(table, Blocks(slugify, apps[..n])), apps[n], target, order);
      forall i | 0 <= i < n
        ensures AppId(apps[i]) != AppId(apps[n]) && apps[..n][i] == apps[i]
      {
        KindsDiffer(SlugOf(apps[i]), SlugOf(apps[n]));
      }
    }
  }

  /** Applying the compiled manifest to any bindings: each application of the manifest gets
      exactly its admissions, and nothing else changes. */
  lemma CompiledMeaning(slugify: string -> string, table: Bindings, apps: seq<App>, target: string, order: int)
    requires ManifestOk(apps)
    ensures var after := Lookup(ApplyAll(table, Compile(slugify, apps)), target, order);
      && (forall i | 0 <= i < |apps| && AppId(apps[i]) == target ::
        after == Admitted(apps[i], order, Lookup(table, target, order)))
      && ((forall i | 0 <= i < |apps| :: AppId(apps[i]) != target) ==> after == Lookup(table, target, order))
  {
    ManifestIsDistinct(apps);
    var section := ScopeSection(slugify, FirstSeen(AllMappings(apps)));
    ApplyConcat(table, section, Blocks(slugify, apps));
    ScopesBindNothing(slugify, table, FirstSeen(AllMappings(apps)));
    BlocksMeaning(slugify, table, apps, target, order);
  }

  /** Applying twice is applying once. */
  lemma ApplyingTwice(slugify: string -> string, table: Bindings, apps: seq<App>)
    requires ManifestOk(apps)
    ensures var once := ApplyAll(table, Compile(slugify, apps)); ApplyAll(once, Compile(slugify, apps)) == once
  {
    hide ManifestOk, Compile, ApplyAll;
    ManifestIsDistinct(apps);
    var once := ApplyAll(table, Compile(slugify, apps));
    var twice := ApplyAll(once, Compile(slugify, apps));
    forall key: (string, int)
      ensures Lookup(twice, key.0, key.1) == Lookup(once, key.0, key.1)
    {
      CompiledMeaning(slugify, table, apps, key.0, key.1);
      CompiledMeaning(slugify, once, apps, key.0, key.1);
    }
    assert twice == once by {
      forall key: (string, int)
        ensures key in twice <==> key in once
        ensures key in twice && key in once ==> twice[key] == once[key]
      {
        assert Lookup(twice, key.0, key.1) == Lookup(once, key.0, key.1);
        assert key == (key.0, key.1);
      }
    }
  }

  /** The manifest alone decides who is admitted to an application exactly when the application
      has a group: without one, earlier bindings at orders 1 and 2 live on. */
  lemma DecidedByManifestIffGrouped(slugify: string -> string, apps: seq<App>, i: nat)
    requires ManifestOk(apps) && i < |apps|
    ensures Complete(apps[i])
    ensures (forall t: Bindings, u: Bindings, order | 0 <= order <= 3 ::
        Lookup(ApplyAll(t, Compile(slugify, apps)), AppId(apps[i]), order)
          == Lookup(ApplyAll(u, Compile(slugify, apps)), AppId(apps[i]), order))
      <==> apps[i].group.Some? && apps[i].group.value != ""
  {
    hide ManifestOk, Compile, ApplyAll;
    ManifestIsDistinct(apps);
    var id := AppId(apps[i]);
    if Grouped(apps[i]) {
      forall t: Bindings, u: Bindings, order | 0 <= order <= 3
        ensures Lookup(ApplyAll(t, Compile(slugify, apps)), id, order)
          == Lookup(ApplyAll(u, Compile(slugify, apps)), id, order)
      {
        CompiledMeaning(slugify, t, apps, id, order);
        CompiledMeaning(slugify, u, apps, id, order);
      }
    } else {
      var none: Bindings, stale: Bindings := map[], map[(id, 1) := Group("former")];
      CompiledMeaning(slugify, none, apps, id, 1);
      CompiledMeaning(slugify, stale, apps, id, 1);
      assert Lookup(ApplyAll(none, Compile(slugify, apps)), id, 1)
        != Lookup(ApplyAll(stale, Compile(slugify, apps)), id, 1);
    }
  }

  // ----- The meaning of the provider entries -----

  /** A server knows a provider by its name. */
  type Providers = map<string, Held>

  datatype Held = Held(provider: Provider, scopes: seq<string>)

  function ApplyProvider(table: Providers, e: Entry): Providers {
    if e.ProviderEntry? then table[e.provider.name := Held(e.provider, e.scopes)] else table
  }

  function ApplyProviders(table: Providers, entries: seq<Entry>): Providers {
    if entries == [] then table
    else ApplyProvider(ApplyProviders(table, entries[..|entries| - 1]), entries[|entries| - 1])
  }

  lemma {:induction false} ProvidersConcat(table: Providers, a: seq<Entry>, b: seq<Entry>)
    ensures ApplyProviders(table, a + b) == ApplyProviders(ApplyProviders(table, a), b)
    decreases |b|
  {
    hide ApplyProvider;
    if b == [] {
      assert a + b == a;
    } else {
      var n := |b| - 1;
      assert (a + b)[..|a + b| - 1] == a + b[..n];
      ProvidersConcat(table, a, b[..n]);
    }
  }

  /** Entries of other kinds leave the providers alone. */
  lemma {:induction false} OthersProvideNothing(table: Providers, entries: seq<Entry>)
    requires forall i | 0 <= i < |entries| :: !entries[i].ProviderEntry?
    ensures ApplyProviders(table, entries) == table
    decreases |entries|
  {
    if entries != [] {
      OthersProvideNothing(table, entries[..|entries| - 1]);
    }
  }

  lemma BlockProvides(slugify: string -> string, table: Providers, app: App)
    requires Complete(app)
    ensures ApplyProviders(table, AppBlock(slugify, app))
      == table[ProviderNameOf(app) := Held(ProviderOf(app), ScopeRefs(slugify, app))]
  {
    hide ApplyProviders, Complete, ScopeRefs, ProviderId, AppId, ProviderNameOf, ProviderOf, ApplicationOf;
    BlockIsOwn(slugify, app);
    var block := AppBlock(slugify, app);
    assert block == [block[0]] + block[1..];
    ProvidersConcat(table, [block[0]], block[1..]);
    OneProvided(table, block[0]);
    OthersProvideNothing(ApplyProvider(table, block[0]), block[1..]);
  }

  lemma OneProvided(table: Providers, e: Entry)
    ensures ApplyProviders(table, [e]) == ApplyProvider(table, e)
  {
    assert [e][..0] == [];
  }

  /** The last app with a provider name has the provider. */
  lemma {:induction false} BlocksProvide(slugify: string -> string, table: Providers, apps: seq<App>, i: nat)
    requires AllComplete(apps) && i < |apps|
    requires forall j | i < j < |apps| :: ProviderNameOf(apps[j]) != ProviderNameOf(apps[i])
    ensures var after := ApplyProviders(table, Blocks(slugify, apps));
      ProviderNameOf(apps[i]) in after
      && after[ProviderNameOf(apps[i])] == Held(ProviderOf(apps[i]), ScopeRefs(slugify, apps[i]))
    decreases |apps|
  {
    hide ApplyProviders, AppBlock, ScopeRefs, Complete;
    var n := |apps| - 1;
    ProvidersConcat(table, Blocks(slugify, apps[..n]), AppBlock(slugify, apps[n]));
    BlockProvides(slugify, ApplyProviders(table, Blocks(slugify, apps[..n])), apps[n]);
    if i < n {
      BlocksProvide(slugify, table, apps[..n], i);
      assert ProviderNameOf(apps[n]) != ProviderNameOf(apps[i]);
    }
  }

  ghost predicate DistinctProviderNames(apps: seq<App>)
    requires AllComplete(apps)
  {
    forall i, j | 0 <= i < j < |apps| :: ProviderNameOf(apps[i]) != ProviderNameOf(apps[j])
  }

  /** Once the output is applied, the app's provider is its own. */
  ghost predicate KeepsOwnProvider(slugify: string -> string, table: Providers, apps: seq<App>, i: int)
    requires AllComplete(apps) && 0 <= i < |apps|
  {
    var after := ApplyProviders(table, Compile(slugify, apps));
    ProviderNameOf(apps[i]) in after
    && OwnProvider(after[ProviderNameOf(apps[i])].provider, apps[i])
    && after[ProviderNameOf(apps[i])].scopes == ScopeRefs(slugify, apps[i])
  }

  lemma CompileProvides(slugify: string -> string, table: Providers, apps: seq<App>)
    requires AllComplete(apps)
    ensures ApplyProviders(table, Compile(slugify, apps)) == ApplyProviders(table, Blocks(slugify, apps))
  {
    hide ApplyProviders, Blocks, FirstSeen, AllMappings, AllComplete;
    var section := ScopeSection(slugify, FirstSeen(AllMappings(apps)));
    ProvidersConcat(table, section, Blocks(slugify, apps));
    OthersProvideNothing(table, section);
  }

  /** Of two apps with one provider name, the last such app has the provider. */
  lemma {:induction false} LastNamesake(apps: seq<App>, i: nat, j: nat) returns (last: nat)
    requires AllComplete(apps) && i < j < |apps| && ProviderNameOf(apps[i]) == ProviderNameOf(apps[j])
    ensures i < last < |apps| && ProviderNameOf(apps[last]) == ProviderNameOf(apps[i])
    ensures forall k | last < k < |apps| :: ProviderNameOf(apps[k]) != ProviderNameOf(apps[last])
    decreases |apps| - j
  {
    hide Complete;
    last := j;
    if k :| j < k < |apps| && ProviderNameOf(apps[k]) == ProviderNameOf(apps[i]) {
      last := LastNamesake(apps, i, k);
    }
  }

  /** The validator does not compare provider names: each app of an accepted manifest keeps its
      own provider exactly when they are pairwise different. */
  lemma OwnProviderIffDistinctNames(slugify: string -> string, table: Providers, apps: seq<App>)
    requires ManifestOk(apps)
    ensures AllComplete(apps)
    ensures (forall i | 0 <= i < |apps| :: KeepsOwnProvider(slugify, table, apps, i)) <==> DistinctProviderNames(apps)
  {
    hide ManifestOk, Compile, ApplyProviders, Blocks, Complete, ScopeRefs;
    ManifestIsDistinct(apps);
    CompileProvides(slugify, table, apps);
    if DistinctProviderNames(apps) {
      forall i | 0 <= i < |apps|
        ensures KeepsOwnProvider(slugify, table, apps, i)
      {
        BlocksProvide(slugify, table, apps, i);
        BlockIsOwn(slugify, apps[i]);
      }
    } else {
      var i, j :| 0 <= i < j < |apps| && ProviderNameOf(apps[i]) == ProviderNameOf(apps[j]);
      var last := LastNamesake(apps, i, j);
      BlocksProvide(slugify, table, apps, last);
      assert ClientOf(apps[i]) != ClientOf(apps[last]);
      BlockIsOwn(slugify, apps[last]);
      assert !KeepsOwnProvider(slugify, table, apps, i);
    }
  }

  /** Two apps that share nothing but the provider's name. */
  const KEEPER := App(TEXTS, Some([]), None, Absent, [], None, None)

  const TAKER := App(TEXTS["slug" := "t"]["client_id" := "d"], Some([]), None, Absent, [], None, None)

  lemma TakerIsOk()
    ensures AppOk(KEEPER) && AppOk(TAKER) && ProviderNameOf(KEEPER) == ProviderNameOf(TAKER)
    ensures SlugOf(KEEPER) != SlugOf(TAKER) && ClientOf(KEEPER) != ClientOf(TAKER)
  {
    assert "s"[0] != "t"[0] && "c"[0] != "d"[0];
  }

  lemma NoMappings(a: App, b: App)
    requires a.scopes == [] && b.scopes == []
    ensures AllMappings([a, b]) == []
  {
    assert [a, b][..1] == [a] && [a][..0] == [];
    assert AllMappings([a]) == [];
  }

  /** The validator accepts them, and the second takes over the first one's provider. */
  lemma AcceptedButTakenOver(slugify: string -> string, table: Providers)
    ensures ManifestOk([KEEPER, TAKER]) && !KeepsOwnProvider(slugify, table, [KEEPER, TAKER], 0)
  {
    hide AppOk, Complete, SlugOf, ClientOf, ProviderNameOf, KeepsOwnProvider;
    TakerIsOk();
    OkIsComplete(KEEPER);
    OkIsComplete(TAKER);
    NoMappings(KEEPER, TAKER);
    TakenOver(slugify, table, KEEPER, TAKER);
  }

  lemma OkIsComplete(app: App)
    requires AppOk(app)
    ensures Complete(app)
  {
  }

  lemma TakenOver(slugify: string -> string, table: Providers, first: App, second: App)
    requires Complete(first) && Complete(second) && ClientOf(first) != ClientOf(second)
    requires ProviderNameOf(first) == ProviderNameOf(second)
    ensures !KeepsOwnProvider(slugify, table, [first, second], 0)
  {
    hide ApplyProviders, Compile, Complete, Blocks;
    CompileProvides(slugify, table, [first, second]);
    BlocksProvide(slugify, table, [first, second], 1);
    BlockIsOwn(slugify, second);
  }
}
