/** The OIDC manifest of scripts/authentik_blueprint_sync.py: `validate_oidc_manifest` and
    `generate_oidc_blueprint_content`. */
module Oidc {
  import opened Results

  datatype Mapping = Mapping(name: string, scopeName: string, description: Option<string>, expression: string)

  datatype Flag = Absent | Given(value: bool) | NotBoolean

  /** One entry of the manifest: its required texts by field name, and the optional keys. */
  datatype App = App(
    texts: map<string, string>, redirectUris: Option<seq<string>>, grantTypes: Option<seq<string>>,
    verifyAgent: Flag, scopes: seq<Mapping>, group: Option<string>, policy: Option<string>)

  const REQUIRED_TEXTS: seq<string> := [
    "name", "slug", "provider_name", "launch_url", "client_id", "client_secret_var", "signing_certificate_var"]

  const GRANT_TYPES: set<string> := {
    "authorization_code", "implicit", "hybrid", "refresh_token", "client_credentials", "password",
    "urn:ietf:params:oauth:grant-type:device_code", "urn:ietf:params:oauth:grant-type:token-exchange"}

  predicate Complete(app: App) {
    (forall f | f in REQUIRED_TEXTS :: f in app.texts) && app.redirectUris.Some?
  }

  function SlugOf(app: App): string
    requires Complete(app)
  {
    assert REQUIRED_TEXTS[1] == "slug";
    app.texts["slug"]
  }

  function ClientOf(app: App): string
    requires Complete(app)
  {
    assert REQUIRED_TEXTS[4] == "client_id";
    app.texts["client_id"]
  }

  function ProviderNameOf(app: App): string
    requires Complete(app)
  {
    assert REQUIRED_TEXTS[2] == "provider_name";
    app.texts["provider_name"]
  }

  // ----- Validation -----

  datatype Problem =
    | MissingField(field: string)
    | DuplicateSlug(slug: string)
    | DuplicateClientId(clientId: string)
    | EmptyGrantTypes(slug: string)
    | UnknownGrantType(slug: string, grantType: string)
    | VerifyAgentNotBoolean(slug: string)
    | NotHttps(slug: string, uri: string)
    | ConflictingScope(name: string)

  predicate GrantTypesOk(app: App) {
    app.grantTypes.Some? ==> app.grantTypes.value != [] && forall g | g in app.grantTypes.value :: g in GRANT_TYPES
  }

  predicate UrisOk(app: App)
    requires Complete(app)
  {
    forall u | u in app.redirectUris.value :: "https://" <= u
  }

  /** What is asked of each entry by itself. */
  predicate AppOk(app: App) {
    Complete(app) && GrantTypesOk(app) && !app.verifyAgent.NotBoolean? && UrisOk(app)
  }

  ghost predicate AllComplete(apps: seq<App>) {
    forall i | 0 <= i < |apps| :: Complete(apps[i])
  }

  ghost predicate DistinctSlugs(apps: seq<App>)
    requires AllComplete(apps)
  {
    forall i, j | 0 <= i < j < |apps| :: SlugOf(apps[i]) != SlugOf(apps[j])
  }

  ghost predicate DistinctClients(apps: seq<App>)
    requires AllComplete(apps)
  {
    forall i, j | 0 <= i < j < |apps| :: ClientOf(apps[i]) != ClientOf(apps[j])
  }

  /** Mappings of one name are one mapping, throughout the manifest. */
  ghost predicate Consistent(mappings: seq<Mapping>) {
    forall m, n | m in mappings && n in mappings && m.name == n.name :: m == n
  }

  function AllMappings(apps: seq<App>): seq<Mapping> {
    if apps == [] then [] else AllMappings(apps[..|apps| - 1]) + apps[|apps| - 1].scopes
  }

  ghost predicate ManifestOk(apps: seq<App>) {
    && (forall i | 0 <= i < |apps| :: AppOk(apps[i]))
    && DistinctSlugs(apps) && DistinctClients(apps) && Consistent(AllMappings(apps))
  }

  /** The complaint is true of the manifest. */
  ghost predicate Justified(problem: Problem, apps: seq<App>) {
    match problem
    case MissingField(f) => exists app | app in apps ::
      if f == "redirect_uris" then app.redirectUris.None? else f in REQUIRED_TEXTS && f !in app.texts
    case DuplicateSlug(s) => exists i, j | 0 <= i < j < |apps| && Complete(apps[i]) && Complete(apps[j]) ::
      SlugOf(apps[i]) == SlugOf(apps[j]) == s
    case DuplicateClientId(c) => exists i, j | 0 <= i < j < |apps| && Complete(apps[i]) && Complete(apps[j]) ::
      ClientOf(apps[i]) == ClientOf(apps[j]) == c
    case EmptyGrantTypes(s) => exists app | app in apps && Complete(app) && SlugOf(app) == s ::
      app.grantTypes == Some([])
    case UnknownGrantType(s, g) => g !in GRANT_TYPES && exists app | app in apps && Complete(app) && SlugOf(app) == s ::
      app.grantTypes.Some? && g in app.grantTypes.value
    case VerifyAgentNotBoolean(s) => exists app | app in apps && Complete(app) && SlugOf(app) == s ::
      app.verifyAgent.NotBoolean?
    case NotHttps(s, u) => !("https://" <= u)
      && exists app | app in apps && Complete(app) && SlugOf(app) == s ::
      u in app.redirectUris.value
    case ConflictingScope(n) => exists a, b | a in AllMappings(apps) && b in AllMappings(apps) && a != b ::
      a.name == b.name == n
  }

  method CheckRequired(app: App) returns (missing: Option<string>)
    ensures missing.None? <==> Complete(app)
    ensures missing.Some? ==>
      if missing.value == "redirect_uris" then app.redirectUris.None?
      else missing.value in REQUIRED_TEXTS && missing.value !in app.texts
  {
    for i := 0 to |REQUIRED_TEXTS|
      invariant forall k | 0 <= k < i :: REQUIRED_TEXTS[k] in app.texts
    {
      if REQUIRED_TEXTS[i] !in app.texts {
        assert |REQUIRED_TEXTS[i]| != 13 || REQUIRED_TEXTS[i][0] == 'p';
        return Some(REQUIRED_TEXTS[i]);
      }
    }
    return if app.redirectUris.None? then Some("redirect_uris") else None;
  }

  /** The checks of one entry that need no other entry. */
  method CheckApp(app: App) returns (problem: Option<Problem>)
    requires Complete(app)
    ensures problem.None? <==> AppOk(app)
    ensures problem.Some? ==> Justified(problem.value, [app]) && !problem.value.ConflictingScope?
  {
    var slug := SlugOf(app);
    assert app in [app];
    if app.grantTypes.Some? {
      var grants := app.grantTypes.value;
      if grants == [] {
        return Some(EmptyGrantTypes(slug));
      }
      for i := 0 to |grants|
        invariant forall k | 0 <= k < i :: grants[k] in GRANT_TYPES
      {
        if grants[i] !in GRANT_TYPES {
          return Some(UnknownGrantType(slug, grants[i]));
        }
      }
    }
    if app.verifyAgent.NotBoolean? {
      return Some(VerifyAgentNotBoolean(slug));
    }
    var uris := app.redirectUris.value;
    for i := 0 to |uris|
      invariant forall k | 0 <= k < i :: "https://" <= uris[k]
    {
      if !("https://" <= uris[i]) {
        assert uris[i] in app.redirectUris.value;
        return Some(NotHttps(slug, uris[i]));
      }
    }
    return None;
  }

  /** The dictionary of mappings seen so far. */
  ghost predicate Knows(known: map<string, Mapping>, mappings: seq<Mapping>) {
    && (forall m | m in mappings :: m.name in known && known[m.name] == m)
    && (forall n | n in known :: known[n] in mappings && known[n].name == n)
  }

  /** The scope checks of one entry, against all entries before it. */
  method CheckScopes(known: map<string, Mapping>, ghost before: seq<Mapping>, scopes: seq<Mapping>)
    returns (r: Result<map<string, Mapping>, Problem>)
    requires Knows(known, before)
    ensures r.Ok? ==> Knows(r.value, before + scopes)
    ensures r.Err? ==> exists a, b | a in before + scopes && b in before + scopes && a != b ::
      a.name == b.name && r.error == ConflictingScope(a.name)
  {
    var seen := known;
    for i := 0 to |scopes|
      invariant Knows(seen, before + scopes[..i])
    {
      var m := scopes[i];
      assert before + scopes[..i + 1] == before + scopes[..i] + [m];
      if m.name !in seen {
        seen := seen[m.name := m];
      } else if seen[m.name] != m {
        assert seen[m.name] in before + scopes && m in before + scopes;
        return Err(ConflictingScope(m.name));
      }
    }
    assert scopes[..|scopes|] == scopes;
    return Ok(seen);
  }

  lemma JustifiedInWhole(problem: Problem, apps: seq<App>, i: nat)
    requires i < |apps| && Justified(problem, [apps[i]]) && !problem.ConflictingScope?
    ensures Justified(problem, apps)
  {
    assert apps[i] in apps;
  }

  lemma {:induction false} MappingsGrow(apps: seq<App>, i: nat)
    requires i <= |apps|
    ensures forall m | m in AllMappings(apps[..i]) :: m in AllMappings(apps)
    decreases |apps|
  {
    if i == |apps| {
      assert apps[..i] == apps;
    } else {
      assert apps[..|apps| - 1][..i] == apps[..i];
      MappingsGrow(apps[..|apps| - 1], i);
    }
  }

  ghost predicate Passed(apps: seq<App>, i: nat, slugs: set<string>, clients: set<string>, known: map<string, Mapping>)
    requires i <= |apps|
  {
    && (forall k | 0 <= k < i :: AppOk(apps[k]))
    && DistinctSlugs(apps[..i]) && DistinctClients(apps[..i])
    && slugs == (set k | 0 <= k < i :: SlugOf(apps[k]))
    && clients == (set k | 0 <= k < i :: ClientOf(apps[k]))
    && Knows(known, AllMappings(apps[..i]))
  }

  lemma PassedStep(apps: seq<App>, i: nat, slugs: set<string>, clients: set<string>,
      known: map<string, Mapping>, next: map<string, Mapping>)
    requires i < |apps| && Passed(apps, i, slugs, clients, known) && AppOk(apps[i])
    requires SlugOf(apps[i]) !in slugs && ClientOf(apps[i]) !in clients
    requires Knows(next, AllMappings(apps[..i]) + apps[i].scopes)
    ensures Passed(apps, i + 1, slugs + {SlugOf(apps[i])}, clients + {ClientOf(apps[i])}, next)
  {
    hide Complete, AppOk, Knows;
    var front, whole := apps[..i], apps[..i + 1];
    assert whole[..i] == front;
    assert AllMappings(whole) == AllMappings(front) + apps[i].scopes;
    AppOkIsComplete(apps, i + 1);
    forall j, k | 0 <= j < k < |whole|
      ensures SlugOf(whole[j]) != SlugOf(whole[k]) && ClientOf(whole[j]) != ClientOf(whole[k])
    {
      if k < i {
        assert SlugOf(front[j]) != SlugOf(front[k]) && ClientOf(front[j]) != ClientOf(front[k]);
      } else {
        assert SlugOf(apps[j]) in slugs && ClientOf(apps[j]) in clients;
      }
    }
  }

  lemma AppOkIsComplete(apps: seq<App>, i: nat)
    requires i <= |apps| && forall k | 0 <= k < i :: AppOk(apps[k])
    ensures forall k | 0 <= k < i :: Complete(apps[k])
    ensures AllComplete(apps[..i])
  {
  }

  lemma SeenBefore(apps: seq<App>, i: nat, slugs: set<string>, clients: set<string>, known: map<string, Mapping>)
    requires i < |apps| && Passed(apps, i, slugs, clients, known) && Complete(apps[i])
    ensures SlugOf(apps[i]) in slugs ==> Justified(DuplicateSlug(SlugOf(apps[i])), apps)
    ensures ClientOf(apps[i]) in clients ==> Justified(DuplicateClientId(ClientOf(apps[i])), apps)
  {
    hide Complete, Knows;
    AppOkIsComplete(apps, i);
    if SlugOf(apps[i]) in slugs {
      var k :| 0 <= k < i && SlugOf(apps[k]) == SlugOf(apps[i]);
    }
    if ClientOf(apps[i]) in clients {
      var k :| 0 <= k < i && ClientOf(apps[k]) == ClientOf(apps[i]);
    }
  }

  lemma ConflictInWhole(apps: seq<App>, i: nat, a: Mapping, b: Mapping)
    requires i < |apps| && a != b && a.name == b.name
    requires a in AllMappings(apps[..i]) + apps[i].scopes && b in AllMappings(apps[..i]) + apps[i].scopes
    ensures Justified(ConflictingScope(a.name), apps)
  {
    assert apps[..i + 1][..i] == apps[..i];
    assert AllMappings(apps[..i + 1]) == AllMappings(apps[..i]) + apps[i].scopes;
    MappingsGrow(apps, i + 1);
  }

  /** A true complaint means the manifest is not in order. */
  lemma JustifiedMeansNotOk(problem: Problem, apps: seq<App>)
    requires Justified(problem, apps)
    ensures !ManifestOk(apps)
  {
  }

  lemma PassedAllIsOk(apps: seq<App>, slugs: set<string>, clients: set<string>, known: map<string, Mapping>)
    requires Passed(apps, |apps|, slugs, clients, known)
    ensures ManifestOk(apps)
  {
    assert apps[..|apps|] == apps;
  }

  /** Accepts exactly the manifests that are in order, and complains truthfully of the others. */
  method Validate(apps: seq<App>) returns (r: Result<(), Problem>)
    ensures r.Ok? <==> ManifestOk(apps)
    ensures r.Err? ==> Justified(r.error, apps)
  {
    r := Walk(apps);
    if r.Err? {
      JustifiedMeansNotOk(r.error, apps);
    }
  }

  method Walk(apps: seq<App>) returns (r: Result<(), Problem>)
    ensures r.Ok? ==> ManifestOk(apps)
    ensures r.Err? ==> Justified(r.error, apps)
  {
    hide ManifestOk, Complete, AppOk, Knows, Passed;
    var slugs: set<string>, clients: set<string>, known: map<string, Mapping> := {}, {}, map[];
    PassedNone(apps);
    for i := 0 to |apps|
      invariant Passed(apps, i, slugs, clients, known)
    {
      var app := apps[i];
      assert app in apps;
      var missing := CheckRequired(app);
      if missing.Some? {
        return Err(MissingField(missing.value));
      }
      SeenBefore(apps, i, slugs, clients, known);
      if SlugOf(app) in slugs {
        return Err(DuplicateSlug(SlugOf(app)));
      }
      if ClientOf(app) in clients {
        return Err(DuplicateClientId(ClientOf(app)));
      }
      var problem := CheckApp(app);
      if problem.Some? {
        JustifiedInWhole(problem.value, apps, i);
        return Err(problem.value);
      }
      PassedKnows(apps, i, slugs, clients, known);
      var scopes := CheckScopes(known, AllMappings(apps[..i]), app.scopes);
      if scopes.Err? {
        ghost var a, b :| a in AllMappings(apps[..i]) + app.scopes && b in AllMappings(apps[..i]) + app.scopes
          && a != b && a.name == b.name && scopes.error == ConflictingScope(a.name);
        ConflictInWhole(apps, i, a, b);
        return Err(scopes.error);
      }
      PassedStep(apps, i, slugs, clients, known, scopes.value);
      slugs, clients, known := slugs + {SlugOf(app)}, clients + {ClientOf(app)}, scopes.value;
    }
    PassedAllIsOk(apps, slugs, clients, known);
    return Ok(());
  }

  lemma PassedNone(apps: seq<App>)
    ensures Passed(apps, 0, {}, {}, map[])
  {
  }

  lemma PassedKnows(apps: seq<App>, i: nat, slugs: set<string>, clients: set<string>, known: map<string, Mapping>)
    requires i <= |apps| && Passed(apps, i, slugs, clients, known)
    ensures Knows(known, AllMappings(apps[..i]))
  {
  }
}
