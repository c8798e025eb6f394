# Verification of the homelab automation core

This project models the parts of the repository that keep state or do string, path or time
arithmetic, and proves what they guarantee over every run and every input. One file per
component; `dafny verify dfyconfig.toml` checks everything.

| files | component |
|---|---|
| `BlueprintServer`, `BlueprintPlan`, `BlueprintLog`, `BlueprintReconcile`, `BlueprintRun`, `BlueprintConvergence` | the Authentik blueprint reconciler: a walk along an ordered plan that keeps two caches of the server in step with it |
| `Oidc`, `OidcCompile`, `Slug` | the OIDC manifest: validation, compilation to blueprint entries, and what the entries mean; `slugify` |
| `Export`, `Sorting` | the exported applications blueprint |
| `Scrub`, `Text`, `Journey` | the secret scrubber of the journey walker, and its bounded request loops |
| `Pool`, `Suite`, `Registered` | the bounded pool of regression launchers, the whole suite run, and its registry |
| `Dependencies` | the dependency reconciler, alone and in every interleaving under its file lock |
| `Navidrome` | the Navidrome user reconciler: planner, best-effort executor, convergence |
| `PosixPath`, `RestartOnChange` | the restart declarations and the path arithmetic they rest on |
| `Readiness`, `Mask` | readiness polling against a deadline; masking of inventory values |
| `Results` | `Option` and `Result`, in place of exceptions and `None` |

## How the world outside is modelled

- The Authentik server is a class with a table keyed by pk. POST, PATCH and DELETE store what is
  sent and nobody else issues them; its background worker may change the status, the time and the
  hash of any instance during any request; any request may fail, with or without effect. Listings
  of instances come in any order. The wall clock does not go back and a sleep of two seconds takes
  at least two.
- What a program calls but does not decide (what galaxy leaves behind, which futures are done,
  whether a Navidrome request fails, how long an attempt takes) is chosen freely within the
  contract stated at the method that stands for it. Which launchers fail is a parameter of a run,
  as the launcher is in the source.
- "An immediate second run" means that nothing happens between the closing listing of one run and
  the opening listing of the next.
- What counts as a letter or a digit, and what lowering does, is a parameter in `Slug` and `Mask`.
  White space is ASCII in `Navidrome`.

## Where a promise holds only under a condition

- A second run of the reconciler is quiet exactly when every blueprint it applies carries a hash;
  an unhashed blueprint is applied on every run (`BlueprintConvergence.ReconcileTwice`,
  `BlueprintConvergence.UnhashedIsNeverInPlace`).
- No two steps of the reconciler match one file, whatever files there are, exactly when no step's
  path is the end of another's; for the program's own plan, exactly when no fixed step's path is
  the end of a flow's (`BlueprintPlan.DistinctMatchesIff`, `BlueprintPlan.PlanMatchesApartIff`).
- A second instance for one file is never created as long as the stored paths, and the steps'
  files, are pairwise different. A step that repoints an instance drops its old path from the
  cache, and loses sight of a path exactly when another instance still has it
  (`BlueprintConvergence.Reconcile`, `BlueprintReconcile.PathStaysCachedIff`,
  `BlueprintReconcile.TwinIsForgotten`).
- KeyOf references resolve uniquely exactly when the custom scope names slugify to different ids,
  that is, have different words; the validator does not check this
  (`OidcCompile.ReferencesResolveIff`, `OidcCompile.AcceptedButAmbiguous`).
- Each app of an accepted manifest keeps its own provider exactly when the provider names are
  pairwise different; the validator does not compare them
  (`OidcCompile.OwnProviderIffDistinctNames`, `OidcCompile.AcceptedButTakenOver`).
- The manifest alone decides who is admitted to an application exactly when the application has a
  group. The source's comment that an entry dropped from the file is never deleted is heeded for
  orders 0 and 3, but an application that loses its group keeps its earlier bindings at orders 1
  and 2 (`OidcCompile.DecidedByManifestIffGrouped`).
- Bracket-free secrets never leak exactly when "redacted" is not among them, and eight is the
  least minimum length for that (`Scrub.CompleteIffWordIsNoSecret`, `Scrub.MinimumLengthIsExact`).
  A secret with a bracket can come back next to a marker (`Scrub.BracketedSecretLeaks`).
- A declared path joins back to the synced file exactly when the stack directory is not the root
  (`PosixPath.RoundTrip`, `PosixPath.RootDoesNotRoundTrip`).
- A round of the Navidrome reconciler in which nothing fails leaves nothing to do exactly when no
  two Authentik users of one clean name want different things; otherwise no store is ever at rest
  (`Navidrome.CleanRoundSettlesIff`, `Navidrome.SettlesIffNoConflict`, `Navidrome.ConflictAtWork`).
- The mask hides a value exactly when the value is not its own mask: a secret of eight dashes is
  printed as it is (`Mask.ShowsIffOwnMask`, `Mask.SecretOfDashes`).
- Without the file lock a reconciler that has succeeded can lose its dependency
  (`Dependencies.WithoutTheLock`). The lock protects what no galaxy run outlived its killed
  reconciler at: such a run goes on without the lock (`Dependencies.LockProtocol`,
  `Dependencies.LockProtocolWithoutKills`, `Dependencies.OrphanBreaksTheLock`).

## Model

| member | source | states |
|---|---|---|
| BlueprintPlan.PlanForIsOk | scripts/authentik_blueprint_sync.py:920-941 | the plan for distinct flow slugs has pairwise distinct, non-empty names, as the reconciler needs |
| BlueprintPlan.FindMatch | scripts/authentik_blueprint_sync.py:1210-1213 | finds the available blueprint whose path ends as the step says exactly when one path and only one does so; of two entries with that path the later one |
| BlueprintPlan.DistinctMatchesIff | scripts/authentik_blueprint_sync.py:1210-1213 | the blueprint steps of a plan match pairwise different files, whatever files there are, exactly when no step's path is the end of another's |
| BlueprintPlan.PlanMatchesApartIff | scripts/authentik_blueprint_sync.py:920-941 | for distinct flow slugs without a slash the program's plan is of that kind exactly when no fixed step's path is the end of a flow's path |
| BlueprintReconcile.BuildIndexes | scripts/authentik_blueprint_sync.py:1178-1180 | from a listing with unique names, in any order, the two caches agree with the server; every path that some instance has is cached, and of two records with one path the later one counts |
| BlueprintReconcile.AgreementAfter | scripts/authentik_blueprint_sync.py:1272-1277 | the cache updates at the end of a step keep both caches in agreement with the server: names still unique, the name cache exactly the server's index, every path entry a live instance with that path |
| BlueprintReconcile.PathStaysCachedIff | scripts/authentik_blueprint_sync.py:1272-1277 | after a step every other path that some instance has is still cached, unless it is the old path of the step's instance and somebody else has it, too |
| BlueprintReconcile.TwinIsForgotten | scripts/authentik_blueprint_sync.py:1272-1277 | of two instances with one path the second is lost to the cache once the first is repointed |
| BlueprintReconcile.EffectSparesOthers | scripts/authentik_blueprint_sync.py:1225-1245 | a step leaves an instance that carries another name and another path unrenamed and unrepointed |
| BlueprintReconcile.WaitForInstance | scripts/authentik_blueprint_sync.py:1120-1169 | at most 60 polls, all of the one instance; all but the last leave the matter open, and the last bears out the result: the returned instance, an error state, a wrong hash, a refusal, or nothing yet when the time is up |
| BlueprintReconcile.EnsureInstance | scripts/authentik_blueprint_sync.py:1217-1247 | leaves exactly one instance with the step's name and path: the one cached by name, or else the one cached by path, or else a new one; a new one comes only if nobody has the name, nor, while the path cache misses nobody with the path, the path; a patch comes only if something is to be corrected; asks for an apply exactly when the cached record is not in place |
| BlueprintReconcile.ReconcileBlueprint | scripts/authentik_blueprint_sync.py:1210-1277 | one step: its requests are those of a step that goes well, or of one that fails with the error returned; its create or patch is right for the table it found; its effect on the table, agreement of the caches, which forget only paths that an instance has given up; and the reported actions are those the requests show |
| BlueprintRun.EnsureBinding | scripts/authentik_blueprint_sync.py:1052-1117 | the first binding of the policy to the target ends up as desired; changed exactly when it was not, and exactly when a write was issued |
| BlueprintRun.AgreementAfterDelete | scripts/authentik_blueprint_sync.py:1192-1197 | deleting the stale instance and dropping its entries keeps the caches in agreement with the server |
| BlueprintRun.ReconcileBinding | scripts/authentik_blueprint_sync.py:1186-1206 | the binding step: nobody is left with the step's name, nothing else changes, and change is reported exactly when something was written |
| BlueprintRun.RunStep | scripts/authentik_blueprint_sync.py:1185-1277 | a step of either kind: its requests, its effect, agreement of the caches; its report gives the step's name, its file, success, and exactly the actions its requests show |
| BlueprintLog.AppliesExtended | scripts/authentik_blueprint_sync.py:1185-1263 | appending a step's requests keeps the applies in plan order, each after all earlier blueprints were seen successful, enabled, at their file and with their expected hash, since they were last created, patched or applied |
| BlueprintLog.WalkIsSafe | scripts/authentik_blueprint_sync.py:1185-1277 | along the steps that go well no answer is fatal, the applies keep that order, every finished blueprint has been seen as wanted since it was last touched, and no later step's instance is touched |
| BlueprintLog.RunIsSafe | scripts/authentik_blueprint_sync.py:1172-1322 | the same for every run, however it ends, and no request follows a refusal or an instance in error |
| BlueprintLog.FailureIsLast | scripts/authentik_blueprint_sync.py:1120-1322 | for every kind of failure the last request is the one that failed or whose answer shows the failure |
| BlueprintRun.VerifyFinal | scripts/authentik_blueprint_sync.py:1279-1317 | passes exactly when every expected name is present and every such instance is successful with its expected hash; every complaint is true of the snapshot |
| BlueprintConvergence.KeptAfter | scripts/authentik_blueprint_sync.py:1185-1277 | with pairwise distinct matched paths no step renames, repoints or loses an instance an earlier step reconciled |
| BlueprintConvergence.Reconcile | scripts/authentik_blueprint_sync.py:1172-1322 | every run: its requests are the two opening listings, or the one that was refused; then those of the steps that went well, in order; then those of the step that failed or the closing listing, which bear out the outcome; so applies are in order and justified and a failure is last; each step changes its own instance only, which is the one with its name, or else its path, and a new one only if there is none of that name, and none of that path while stored paths and files are pairwise different; a plan in place is left alone; a normal run reaches every step's goal, reports change exactly when it issued a write and exactly when the plan was not in place, and reports for each step its file, success and the actions the log shows; with distinct matches no instance is ever missing |
| BlueprintConvergence.ReconcileAll | scripts/authentik_blueprint_sync.py:1172-1322 | the same of the program's own plan for any distinct flow slugs without a slash; if no fixed step's path is the end of a flow's, no step undoes another and no instance is ever missing |
| BlueprintConvergence.ReachedIsInPlaceIffHashed | scripts/authentik_blueprint_sync.py:1246-1251 | once every step has reached its goal, nothing is left to do exactly when every blueprint carries a hash |
| BlueprintConvergence.UnhashedIsNeverInPlace | scripts/authentik_blueprint_sync.py:1246-1251 | a plan with one blueprint without a hash is never in place |
| BlueprintConvergence.ReconcileTwice | scripts/authentik_blueprint_sync.py:1172-1322 | a run straight after a normal one issues no POST, PATCH or DELETE when all hashes are known; a second normal run reports no change exactly then |
| Slug.SlugifyLoop | scripts/authentik_blueprint_sync.py:492-502 | over any alphabet the repeated replacement ends, equals the one-pass collapse, and yields alphanumerics and single dashes with none at the ends |
| Slug.FixedPointsAreSlugs | scripts/authentik_blueprint_sync.py:492-502 | exactly the normal forms are left unchanged, and slugifying twice is slugifying once, wherever lowering leaves alone what it has made |
| Slug.AsciiIsLawful | scripts/authentik_blueprint_sync.py:494 | lowering in ASCII is of that kind |
| Slug.SlugIsJoinedWords | scripts/authentik_blueprint_sync.py:492-502 | the slug is the text's lower-case alphanumeric words joined by single dashes; two texts collide exactly when they have the same words |
| Oidc.Validate | scripts/authentik_blueprint_sync.py:121-167 | accepts exactly the manifests that are complete, with known grant types, boolean flags, https redirects, distinct slugs and client ids and consistent scope mappings; every complaint is true |
| Oidc.JustifiedMeansNotOk | scripts/authentik_blueprint_sync.py:130-167 | a complaint that is true of a manifest means the manifest is not in order |
| OidcCompile.Generate | scripts/authentik_blueprint_sync.py:189-374 | the loops emit the first-seen mappings and then app by app, for which contents and meaning are proved below |
| OidcCompile.EveryAppStands | scripts/authentik_blueprint_sync.py:222-287 | for each app of an accepted manifest the output holds one provider entry with the app's own name, client, secret, certificate, grant types and redirect URIs, and next to it the only application entry of the app's slug, with its own name and launch URL, referring to that provider |
| OidcCompile.ReferencesResolveIff | scripts/authentik_blueprint_sync.py:189-280 | for an accepted manifest, and whatever function makes the slugs, every KeyOf reference names an id defined exactly once, and earlier, exactly when the custom scope names have different ids |
| OidcCompile.SameIdIffSameWords | scripts/authentik_blueprint_sync.py:199-201 | with the program's slugs, over any alphabet, two scope names have one id exactly when they have the same words |
| OidcCompile.AcceptedButAmbiguous | scripts/authentik_blueprint_sync.py:121-167 | a manifest with the scope names "A b" and "a-b" is accepted, and its references do not resolve |
| OidcCompile.OwnProviderIffDistinctNames | scripts/authentik_blueprint_sync.py:219-246 | once the entries of an accepted manifest are applied, each app has the provider of its name with its own settings and scopes exactly when the provider names are pairwise different |
| OidcCompile.AcceptedButTakenOver | scripts/authentik_blueprint_sync.py:121-167 | two apps with one provider name are accepted, and the second takes over the first one's provider |
| OidcCompile.ScopesKeepMeaning | scripts/authentik_blueprint_sync.py:189-246 | each provider's custom mapping references resolve to the app's own definitions despite first-seen deduplication |
| OidcCompile.BlockMeaning | scripts/authentik_blueprint_sync.py:289-370 | applying one app's entries admits at order 0 the app's own policy, or "always-allow" if it has none, and nobody if it has a group; at orders 1 and 2 its group and the admins; at order 3 the agent exactly on opt-in; and touches nothing else |
| OidcCompile.CompiledMeaning | scripts/authentik_blueprint_sync.py:289-370 | applying the whole output to any bindings gives each app of the manifest exactly its admissions and changes no other target or order |
| OidcCompile.ApplyingTwice | scripts/authentik_blueprint_sync.py:289-370 | applying the output twice equals applying it once |
| OidcCompile.DecidedByManifestIffGrouped | scripts/authentik_blueprint_sync.py:289-349 | the admissions after applying are independent of the bindings before exactly when the app has a group |
| Sorting.SortedSorts | scripts/authentik_blueprint_sync.py:760-798 | the sort used for applications and bindings gives a permutation in ascending order |
| Sorting.SortedIsStable | scripts/authentik_blueprint_sync.py:760-798 | elements that tie keep their order |
| Sorting.StringLeqMeans | scripts/authentik_blueprint_sync.py:760 | a string comes no later than another exactly when it is the beginning of it or smaller at the first place where they differ |
| Export.BuildApplications | scripts/authentik_blueprint_sync.py:743-838 | succeeds exactly when every group, user and policy the exported applications' bindings refer to is known as such, and then emits the applications by slug, each with its bindings by order; a complaint names a reference that is not known |
| Export.ExportedInOrder | scripts/authentik_blueprint_sync.py:760-832 | the applications of the output are the exported ones, each as often as the server has it, with their slugs in ascending order; every binding gives the names of its own group, user and policy |
| Export.ExportConserves | scripts/authentik_blueprint_sync.py:753-832 | with unique pks and slugs the output holds exactly the bindings aimed at exported applications, each directly after its application, before the next, in ascending order, and ties keep the order of the server |
| Text.ReplaceStep | scripts/journey_walker.py:68 | a replacement leaves no occurrence of the replaced string and brings in no absent one, unless it can be read out of the marker |
| Scrub.Scrub | scripts/journey_walker.py:66-69 | the result is the text after visiting every eligible secret once, longest first, ties in any order |
| Scrub.ScrubIsComplete | scripts/journey_walker.py:66-69 | no eligible secret is left in the text when none can be read out of the marker, however markers join the text around them |
| Scrub.BracketFreeClash | scripts/journey_walker.py:29 | of bracket-free strings of at least eight characters only "redacted" can be read out of the marker |
| Scrub.MinimumLengthIsExact | scripts/journey_walker.py:29 | eight is the least minimum length with that property |
| Scrub.CompleteIffWordIsNoSecret | scripts/journey_walker.py:66-69 | for bracket-free secrets nothing leaks from any text exactly when "redacted" is not a secret |
| Scrub.BracketedSecretLeaks | scripts/journey_walker.py:66-69 | the secret "passwor<" is in what is left of the text "passworpasswor<" |
| Scrub.WholeSecret | scripts/journey_walker.py:67 | longest first, a text that is one secret becomes one marker, with no fragment left by a shorter secret inside it |
| Scrub.DelimitedSecret | scripts/journey_walker.py:66-69 | a secret between two characters foreign to all secrets becomes one marker and the text on both sides is scrubbed as if alone |
| Journey.WithoutQueryHides | scripts/journey_walker.py:46-47 | the shown part of a URL is a prefix without query or fragment, and is all of it up to the first '?' or '#' |
| Journey.Challenge | scripts/journey_walker.py:89-96 | one request, then plain GETs that follow the redirects as long as there are any, at most fifteen; the result is that of the last answer |
| Journey.SignIn | scripts/journey_walker.py:103-114 | ends against any server in at most 48 requests; answers each known stage at most once, only at the executor and only when it was just asked for; success, a broken connection and a stop are what the last answer says |
| Journey.SignedInIff | scripts/journey_walker.py:107 | sign-in succeeds exactly when the last answer is the signed-in component |
| Journey.Walk | scripts/journey_walker.py:117-145 | at most sixteen plain GETs, each following the redirect before it; one hop shown for each answer; the outcome is that of the last exchange, and a success is no redirect |
| Pool.RunPooled | tests/regression/run_lxc_lifecycle_regressions.py:195-242 | for every completion order: what is launched is a prefix of the input, all of it unless fail-fast met a failure; exactly the launched scripts that fail are returned; and the run is legal and complete: bound kept, input order kept, waiting only with the pool full, the input exhausted or scheduling stopped, nothing submitted after a failure under fail-fast |
| Pool.LegalAccounting | tests/regression/run_lxc_lifecycle_regressions.py:214-241 | at every moment at most max_workers are in flight and each submitted script is in flight or reported, exactly once |
| Pool.NothingAfterFailure | tests/regression/run_lxc_lifecycle_regressions.py:233-241 | under fail-fast nothing is submitted after a reported failure |
| Pool.CompleteReportsAll | tests/regression/run_lxc_lifecycle_regressions.py:230-242 | at the end every submitted script has been reported exactly once, and all were submitted unless fail-fast stopped |
| Suite.RunSerially | tests/regression/run_lxc_lifecycle_regressions.py:176-192 | launches the scripts in order, cut short only, and at once, by a failure under fail-fast; returns the failing ones among the launched in order |
| Pool.EachOnceIsPermutation | tests/regression/run_lxc_lifecycle_regressions.py:230-242 | naming each chosen place of a prefix once, in any order, names each script as often as it is listed at such places |
| Suite.RunRegressions | tests/regression/run_lxc_lifecycle_regressions.py:245-303 | in every completion order, with or without fail-fast: the launches are the fast scripts in order, then those of a complete legal pool run over the pooled scripts with at most two in flight, then the serial scripts one at a time; a failure under fail-fast in one stage keeps the next from starting and cuts the serial stage short; exit status 0 exactly when all of what was asked for passes, and exactly when every launched script passed; a passing full run, and any full run without fail-fast, launches all stages in full |
| Registered.StagesPartitionRegistry | tests/regression/run_lxc_lifecycle_regressions.py:70-124 | the three stages together hold every registered script exactly once |
| Registered.RunAll | tests/regression/run_lxc_lifecycle_regressions.py:245-303 | the run of the actual registry, stage by stage as above: a passing full run, and any full run without fail-fast, launches every registered script exactly once and nothing else |
| Registered.StemsTellNamespacesApart | tests/regression/run_lxc_lifecycle_regressions.py:158-173 | namespaces differ exactly when the stems do, for '.py' names when the names do, and none is the shared one |
| Registered.InFlightNamespaces | tests/regression/run_lxc_lifecycle_regressions.py:158-173 | at every moment of a pooled run the launchers in flight have pairwise distinct namespaces |
| Dependencies.Worktree.Reconcile | scripts/live_dependencies.py:161-221 | on success every consumed name is at its pin, and galaxy has succeeded once, in order, for exactly the names that were not; what is not consumed or was at its pin is untouched; an error is about the first name that gives rise to one, and is a failed galaxy run exactly when galaxy's last run, for that name, failed |
| Dependencies.ReachableInvariant | scripts/live_dependencies.py:308-329 | in every interleaving, with reconcilers killed at any point, only the holder is inside, and what it has passed is at its pin unless a galaxy run has outlived its reconciler at it |
| Dependencies.LockProtocol | scripts/live_dependencies.py:308-335 | whoever has succeeded has all it consumes at the pins from then on, untouched, but for what by then some galaxy run had outlived its killed reconciler at; at most one process is inside |
| Dependencies.LockProtocolWithoutKills | scripts/live_dependencies.py:308-335 | when no reconciler is killed while galaxy runs for it, whoever has succeeded has all it consumes at the pins from then on |
| Dependencies.OrphanBreaksTheLock | scripts/live_dependencies.py:308-318 | with the lock, but with one such kill, a process that has succeeded loses its dependency |
| Dependencies.GalaxyOnlyWhenNeeded | scripts/live_dependencies.py:174-175 | galaxy is never at a dependency nobody consumes, or that was ever at its pin and left alone |
| Dependencies.WithoutTheLock | scripts/live_dependencies.py:313-315 | without the lock a process that has succeeded can lose its dependency |
| Navidrome.PlanReconciliation | stacks/public/music/reconciler/reconciler.py:140-197 | the loop yields what each Authentik user asks for given the stored user of that name |
| Navidrome.PlanInOrder | stacks/public/music/reconciler/reconciler.py:144-197 | one operation for each user who asks for something, in the order of the users |
| Navidrome.LookupIsLast | stacks/public/music/reconciler/reconciler.py:107-112 | the stored user of a name is the last whose clean name it is, if there is one |
| Navidrome.OperationSays | stacks/public/music/reconciler/reconciler.py:140-197 | a stored user is updated exactly if it is not as the list has it, and the update gives it the listed address, its own clean name and the listed state, and leaves its administrator flag alone; a create comes exactly for an enabled user nobody has stored |
| Navidrome.UpdateSatisfies | stacks/public/music/reconciler/reconciler.py:90-137 | whatever the record's shape, laying the update over it leaves nothing to ask for |
| Navidrome.RoundLeavesFailures | stacks/public/music/reconciler/reconciler.py:140-262 | after a round in which any subset of operations fails the next plan is exactly the failed ones, in order |
| Navidrome.NothingFailed | stacks/public/music/reconciler/reconciler.py:237-262 | that plan is empty exactly when nothing failed |
| Navidrome.SettlesIffNoConflict | stacks/public/music/reconciler/reconciler.py:147-197 | for any list of Authentik users some store is at rest exactly when no two users of one clean name want different things |
| Navidrome.ConflictAtWork | stacks/public/music/reconciler/reconciler.py:147-197 | two users "ann" and " ann" with two addresses leave no store at rest |
| Navidrome.CleanRoundSettlesIff | stacks/public/music/reconciler/reconciler.py:140-262 | for any list of Authentik users and any store with unique ids, a round in which nothing fails leaves an empty plan exactly when no two users of one clean name want different things |
| Navidrome.RoundsPreserve | stacks/public/music/reconciler/reconciler.py:100-137 | over any rounds with any lists and failures nobody's administrator flag changes, nobody is lost, nobody unlisted is touched, and new users are listed and no administrators |
| Navidrome.Store.SyncOnce | stacks/public/music/reconciler/reconciler.py:237-262 | tries every operation of its plan once, in order, going on after failures; with distinct names it leaves exactly the failed operations to plan, and with any names, if none failed, nothing exactly when there is no conflict |
| PosixPath.RoundTrip | playbooks/filter_plugins/restart_on_change.py:51-57 | for a normal path inside an absolute directory, the relative path never goes up, and joins back to the resolved path exactly when the directory is not the root |
| PosixPath.RootDoesNotRoundTrip | playbooks/filter_plugins/restart_on_change.py:51-57 | from the root, "//x" comes back as "/x" |
| PosixPath.NormPathLaws | playbooks/filter_plugins/restart_on_change.py:52 | in an absolute path a component and the ".." after it cancel out, and "." and empty components say nothing |
| PosixPath.BaseNameEnds | playbooks/filter_plugins/restart_on_change.py:36 | the stack is what comes after the last slash of its directory |
| RestartOnChange.Declare | playbooks/filter_plugins/restart_on_change.py:22-60 | accepts exactly when every entry of every source names a service of its stack and synced paths inside it; then there are as many declarations as declared paths, in their order, each for its stack and service, and with its path joined to the stack directory in normal form; every complaint is true |
| RestartOnChange.DeclarationsAreSound | playbooks/filter_plugins/restart_on_change.py:50-59 | for stacks in absolute directories other than the root, every returned path stays inside its stack and joined to the stack directory is a synced file |
| RestartOnChange.OrderDoesNotMatter | playbooks/filter_plugins/restart_on_change.py:26-60 | permuting the sources changes neither acceptance nor the multiset of declarations |
| Readiness.WaitForGuest | library/proxmox_pct.py:280-341 | ends within timeout, grace and overshoot; makes at least one and at most the stated number of attempts, none after a success; each later one follows the delay, and only if time was left for it and a usable attempt, and it gives up only if there is none; reports the last answer that was not a kill |
| Readiness.CeilBound | library/proxmox_pct.py:306-308 | the whole number of attempts that fit before the deadline |
| Mask.MaskValue | scripts/masked_inventory.py:16-32 | of the characters' mask exactly the maximal runs of seventeen or more 'a' or '9' are rewritten, to character, sign and length |
| Mask.CompressByRuns | scripts/masked_inventory.py:13 | what the scanning substitution does is the same as encoding the maximal runs one by one, those of seventeen or more 'a' or '9' by character, sign and length |
| Mask.DecimalReads | scripts/masked_inventory.py:30 | the digits after the sign read back as the length of the run |
| Mask.MaskedByCharacters | scripts/masked_inventory.py:19-29 | but for line breaks and tabs the mask has a dot for each space, an 'a' for each letter, a nine for each digit, and everything else itself |
| Mask.MaskedBlanks | scripts/masked_inventory.py:19-29 | line breaks and tabs show as a backslash and a letter |
| Mask.SameShapeSameMask | scripts/masked_inventory.py:16-32 | values with the same character classes position by position have the same mask |
| Mask.MaskHidesText | scripts/masked_inventory.py:19-32 | no letter, digit or visible space of a value shows in what is printed for it |
| Mask.MaskInventory | scripts/masked_inventory.py:41-52 | the vault entries and those holding a vault value come out masked, the others unchanged; a vault value of eight characters or more shows in no unmasked entry, and in a masked one only if it looks like a mask: no visible space, no letter but the signs, and every sign after what it goes with; in its own entry a value shows exactly when it is its own mask |
| Mask.ShowsIffOwnMask | scripts/masked_inventory.py:16-32 | a value shows in what is printed for it exactly when its letters are all 'a', its digits all '9', it has no visible space and no run of seventeen, and then it is printed as it is |
| Mask.SecretOfDashes | scripts/masked_inventory.py:16-32 | eight dashes for a vault value are printed as they are |
| Mask.SecretOfLetters | scripts/masked_inventory.py:16-52 | where 'n' is a letter, eight of them for a vault value show in no entry |

## Left out

- HTTP, JSON, YAML and argument parsing, logging, file writing and process spawning: requests, results and durations stand for them.
- The text layout of the generated YAML and the wording of messages: the sequence of entries and the data of an error carry the meaning; the provider attributes that no property is about travel with the app record.
- `available_paths` in the reconciler's report, and parsing of the password-change flow export: the policy and the target binding are given, or absent, on the server.
- Exceptions raised by a launcher itself, and two launchers of the fast stage overlapping in time: each launch is one event with an outcome.
- Fleet key classification, the control-path directory and reading the requirements files: the pins are a map.
- The groups, providers, service account and outpost blueprints, flow export and normalisation: short mappings that would add only easy members.
- White space outside ASCII around user names.
- Navidrome answers lost after an operation took effect: such an operation counts as done.
- Scrub.ScrubIsComplete: the condition that no secret can be read out of the marker is shown to be exact for bracket-free secrets only; whether a secret with a bracket leaks also depends on the other secrets.
- Mask.MaskInventory: for a vault value in another entry than its own the stated condition is necessary; whether it shows is a matter of that entry's text.
- Sign-in detection by final URL in `passed`, and the printed report line.
