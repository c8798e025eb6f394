/** The ordered plan of scripts/authentik_blueprint_sync.py, and the choice of the one
    available blueprint file each step stands for. */
module BlueprintPlan {
  import opened Results
  import opened Text
  import opened BlueprintServer

  const NAVIDROME := "repo-auth-navidrome-password-change-sync"

  /** A step names an instance and the end of the path of its blueprint file. */
  datatype Step = Step(name: string, relative: string)

  type Plan = seq<Step>

  const FIRST_STEPS: Plan := [
    Step("repo-auth-groups", "10-groups.yaml"),
    Step("repo-auth-roles", "15-roles.yaml")]

  const CUSTOM_STEPS: Plan := [
    Step("repo-auth-brand-flows", "24-brand-flows.yaml"),
    Step("repo-auth-default-auth-policies", "25-default-auth-policies.yaml"),
    Step("repo-auth-registration-approval-flow", "26-registration-approval-flow.yaml"),
    Step(NAVIDROME, "27-navidrome-password-change-sync.yaml"),
    Step("repo-auth-notifications", "70-notifications.yaml"),
    Step("repo-auth-proxmox-oidc", "85-proxmox-oidc.yaml")]

  const LAST_STEPS: Plan := [
    Step("repo-auth-providers", "30-providers.yaml"),
    Step("repo-auth-service-accounts", "50-service-accounts.yaml"),
    Step("repo-auth-applications", "40-applications.yaml"),
    Step("repo-auth-outposts", "60-outposts.yaml"),
    Step("repo-auth-oidc-apps", "80-oidc-apps.yaml")]

  /** The steps that are the same for every list of flows. */
  const FIXED := FIRST_STEPS + CUSTOM_STEPS + LAST_STEPS

  const FLOW_PREFIX := "repo-auth-flow-"

  function FlowStep(slug: string): Step {
    Step(FLOW_PREFIX + slug, "20-flows/" + slug + ".yaml")
  }

  function FlowSteps(slugs: seq<string>): Plan {
    seq(|slugs|, i requires 0 <= i < |slugs| => FlowStep(slugs[i]))
  }

  function BlueprintPlanFor(flowSlugs: seq<string>): Plan {
    FIRST_STEPS + FlowSteps(flowSlugs) + CUSTOM_STEPS + LAST_STEPS
  }

  ghost predicate DistinctNames(plan: Plan) {
    forall i, j | 0 <= i < j < |plan| :: plan[i].name != plan[j].name
  }

  /** What the reconciler needs of a plan. */
  ghost predicate PlanOk(plan: Plan) {
    DistinctNames(plan) && forall i | 0 <= i < |plan| :: plan[i].name != "" && plan[i].relative != ""
  }

  /** Length and, among equal lengths, one character tell thirteen such names apart. */
  lemma ToldApart(plan: Plan)
    requires |plan| == 13
    requires |plan[0].name| == 16 && |plan[1].name| == 15 && |plan[2].name| == 21 && |plan[3].name| == 31
    requires |plan[4].name| == 36 && |plan[5].name| == 40 && |plan[6].name| == 23 && |plan[7].name| == 22
    requires |plan[8].name| == 19 && |plan[9].name| == 26 && |plan[10].name| == 22 && |plan[11].name| == 18
    requires |plan[12].name| == 19
    requires plan[7].name[10] != plan[10].name[10] && plan[8].name[11] != plan[12].name[11]
    ensures DistinctNames(plan)
  {
  }

  /** The step is complete and its name does not read like a flow's. */
  predicate Plain(s: Step) {
    !(FLOW_PREFIX <= s.name) && s.name != "" && s.relative != ""
  }

  lemma NotAFlow(s: Step)
    requires |s.name| > 11 && (s.name[10] != 'f' || s.name[11] != 'l') && s.relative != ""
    ensures Plain(s)
  {
    assert FLOW_PREFIX[10] == 'f' && FLOW_PREFIX[11] == 'l';
  }

  lemma FirstArePlain()
    ensures forall s | s in FIRST_STEPS :: Plain(s)
  {
    hide Plain;
    NotAFlow(FIRST_STEPS[0]);
    NotAFlow(FIRST_STEPS[1]);
  }

  lemma CustomArePlain()
    ensures forall s | s in CUSTOM_STEPS :: Plain(s)
  {
    hide Plain;
    NotAFlow(CUSTOM_STEPS[0]);
    NotAFlow(CUSTOM_STEPS[1]);
    NotAFlow(CUSTOM_STEPS[2]);
    NotAFlow(CUSTOM_STEPS[3]);
    NotAFlow(CUSTOM_STEPS[4]);
    NotAFlow(CUSTOM_STEPS[5]);
  }

  lemma LastArePlain()
    ensures forall s | s in LAST_STEPS :: Plain(s)
  {
    hide Plain;
    NotAFlow(LAST_STEPS[0]);
    NotAFlow(LAST_STEPS[1]);
    NotAFlow(LAST_STEPS[2]);
    NotAFlow(LAST_STEPS[3]);
    NotAFlow(LAST_STEPS[4]);
  }

  lemma FixedTellApart()
    ensures DistinctNames(FIXED)
  {
    hide DistinctNames;
    var fixed := FIXED;
    assert |fixed[0].name| == 16 && |fixed[1].name| == 15 && |fixed[2].name| == 21;
    assert |fixed[3].name| == 31 && |fixed[4].name| == 36 && |fixed[5].name| == 40;
    assert |fixed[6].name| == 23 && |fixed[7].name| == 22 && |fixed[8].name| == 19;
    assert |fixed[9].name| == 26 && |fixed[10].name| == 22 && |fixed[11].name| == 18 && |fixed[12].name| == 19;
    assert fixed[7].name[10] == 'p' && fixed[10].name[10] == 'a';
    assert fixed[8].name[11] == 'r' && fixed[12].name[11] == 'i';
    ToldApart(fixed);
  }

  /** The fixed names differ pairwise, and none of them reads like a flow's name. */
  lemma FixedNames()
    ensures DistinctNames(FIXED)
    ensures forall s | s in FIXED :: Plain(s)
  {
    FixedTellApart();
    FirstArePlain();
    CustomArePlain();
    LastArePlain();
    EachOf(FIRST_STEPS, CUSTOM_STEPS, LAST_STEPS);
  }

  lemma EachOf(a: Plan, b: Plan, c: Plan)
    requires forall s | s in a :: Plain(s)
    requires forall s | s in b :: Plain(s)
    requires forall s | s in c :: Plain(s)
    ensures forall s | s in a + b + c :: Plain(s)
  {
  }

  /** Flow steps can stand between steps whose names do not read like a flow's. */
  lemma FlowsBetween(first: Plan, flowSlugs: seq<string>, rest: Plan)
    requires forall i, j | 0 <= i < j < |flowSlugs| :: flowSlugs[i] != flowSlugs[j]
    requires DistinctNames(first + rest)
    requires forall s | s in first + rest :: Plain(s)
    ensures PlanOk(first + FlowSteps(flowSlugs) + rest)
  {
    var flows := FlowSteps(flowSlugs);
    var fixed, plan := first + rest, first + flows + rest;
    var n, k := |flows|, |first|;
    forall i | 0 <= i < n
      ensures FLOW_PREFIX <= flows[i].name && flows[i].name[|FLOW_PREFIX|..] == flowSlugs[i] && flows[i].relative != ""
    {
    }
    forall i | 0 <= i < |plan|
      ensures if k <= i < k + n then plan[i] == flows[i - k]
              else plan[i] == fixed[if i < k then i else i - n] && plan[i] in fixed
    {
    }
  }

  /** Distinct flow slugs give a plan with distinct names. */
  lemma PlanForIsOk(flowSlugs: seq<string>)
    requires forall i, j | 0 <= i < j < |flowSlugs| :: flowSlugs[i] != flowSlugs[j]
    ensures PlanOk(BlueprintPlanFor(flowSlugs))
  {
    FixedNames();
    var first, custom, last := FIRST_STEPS, CUSTOM_STEPS, LAST_STEPS;
    assert first + custom + last == first + (custom + last);
    FlowsBetween(first, flowSlugs, custom + last);
    assert first + FlowSteps(flowSlugs) + custom + last == first + FlowSteps(flowSlugs) + (custom + last);
  }

  // ----- Matching a step with the one available blueprint -----

  /** The available blueprints by path; of two with the same path the later one counts. */
  function ByPath(available: seq<Available>): map<string, Available> {
    if available == [] then map[]
    else
      var last := available[|available| - 1];
      ByPath(available[..|available| - 1])[last.path := last]
  }

  lemma {:induction false} ByPathKeys(available: seq<Available>)
    ensures forall p | p in ByPath(available) :: ByPath(available)[p].path == p
  {
    if available != [] {
      ByPathKeys(available[..|available| - 1]);
    }
  }

  ghost function Matches(available: seq<Available>, relative: string): set<string> {
    set p | p in ByPath(available) && EndsWith(p, relative)
  }

  /** The one available blueprint whose path ends as the step says, if there is exactly one. */
  ghost function MatchOf(available: seq<Available>, relative: string): (r: Option<Available>)
    ensures r.Some? <==> |Matches(available, relative)| == 1
    ensures r.Some? ==> r.value.path in Matches(available, relative)
  {
    if |Matches(available, relative)| == 1 then
      var p :| p in Matches(available, relative);
      ByPathKeys(available);
      Some(ByPath(available)[p])
    else
      None
  }

  lemma SingletonMember<T>(s: set<T>, x: T, y: T)
    requires |s| == 1 && x in s && y in s
    ensures x == y
  {
    assert |s - {x}| == 0;
    assert y !in s - {x};
  }

  /** The blueprint is listed and its path ends as the step says; of those with one path it is the
      last, and all whose path ends like that have this path. */
  ghost predicate OnlyMatch(available: seq<Available>, relative: string, found: Available) {
    && EndsWith(found.path, relative)
    && (forall a | a in available && EndsWith(a.path, relative) :: a.path == found.path)
    && exists k | 0 <= k < |available| && available[k] == found ::
         forall l | k < l < |available| :: available[l].path != found.path
  }

  lemma {:induction false} ByPathIsLast(available: seq<Available>, p: string)
    ensures p in ByPath(available) <==> exists a | a in available :: a.path == p
    ensures p in ByPath(available) ==>
      exists k | 0 <= k < |available| && available[k] == ByPath(available)[p] :: available[k].path == p
        && forall l | k < l < |available| :: available[l].path != p
    decreases |available|
  {
    if available != [] {
      var n := |available| - 1;
      var front := available[..n];
      assert available == front + [available[n]];
      ByPathIsLast(front, p);
      if available[n].path != p && p in ByPath(front) {
        var k :| 0 <= k < n && front[k] == ByPath(front)[p] && front[k].path == p
          && forall l | k < l < n :: front[l].path != p;
        assert available[k] == ByPath(available)[p];
        assert forall l | k < l < n :: available[l] == front[l];
      }
    }
  }

  lemma MatchMeans(available: seq<Available>, relative: string)
    ensures var found := MatchOf(available, relative);
      && (found.Some? ==> OnlyMatch(available, relative, found.value))
      && (found.None? ==> forall a :: !OnlyMatch(available, relative, a))
  {
    hide ByPath, EndsWith;
    var found, matched := MatchOf(available, relative), Matches(available, relative);
    forall a | a in available
      ensures a.path in ByPath(available)
    {
      ByPathIsLast(available, a.path);
    }
    if found.Some? {
      var p := found.value.path;
      ByPathKeys(available);
      ByPathIsLast(available, p);
      assert found.value == ByPath(available)[p];
      forall a | a in available && EndsWith(a.path, relative)
        ensures a.path == p
      {
        SingletonMember(matched, a.path, p);
      }
    }
    forall a | OnlyMatch(available, relative, a)
      ensures found.Some?
    {
      OnlyMatchIsOne(available, relative, a);
    }
  }

  lemma OnlyMatchIsOne(available: seq<Available>, relative: string, a: Available)
    requires OnlyMatch(available, relative, a)
    ensures |Matches(available, relative)| == 1
  {
    hide ByPath, EndsWith;
    var matched := Matches(available, relative);
    ByPathIsLast(available, a.path);
    forall p | p in matched
      ensures p == a.path
    {
      ByPathIsLast(available, p);
    }
    assert matched == {a.path};
  }

  method FindMatch(available: seq<Available>, relative: string) returns (r: Option<Available>)
    ensures r == MatchOf(available, relative)
    ensures match r
      case Some(found) => OnlyMatch(available, relative, found)
      case None => forall a :: !OnlyMatch(available, relative, a)
  {
    MatchMeans(available, relative);
    var byPath := ByPath(available);
    var matched := set p | p in byPath && EndsWith(p, relative);
    assert matched == Matches(available, relative);
    if |matched| != 1 {
      return None;
    }
    var p :| p in matched;
    ByPathKeys(available);
    SingletonMember(matched, p, MatchOf(available, relative).value.path);
    return Some(byPath[p]);
  }

  predicate IsBlueprint(step: Step) {
    step.name != NAVIDROME
  }

  /** The steps match pairwise different files. */
  ghost predicate DistinctMatches(plan: Plan, available: seq<Available>) {
    forall i, j | 0 <= i < j < |plan| && IsBlueprint(plan[i]) && IsBlueprint(plan[j])
      && MatchOf(available, plan[i].relative).Some? && MatchOf(available, plan[j].relative).Some? ::
      MatchOf(available, plan[i].relative).value.path != MatchOf(available, plan[j].relative).value.path
  }

  // ----- When steps match pairwise different files -----

  /** No blueprint step's path is the end of another's. */
  ghost predicate NoEndings(plan: Plan) {
    forall i, j | 0 <= i < |plan| && 0 <= j < |plan| && i != j && IsBlueprint(plan[i]) && IsBlueprint(plan[j]) ::
      !EndsWith(plan[i].relative, plan[j].relative)
  }

  /** Of two ends of one text the shorter ends the longer. */
  lemma EndsNest(p: string, a: string, b: string)
    requires EndsWith(p, a) && EndsWith(p, b) && |b| <= |a|
    ensures EndsWith(a, b)
  {
    assert p[|p| - |a|..][|a| - |b|..] == p[|p| - |b|..];
  }

  lemma MatchEnds(available: seq<Available>, relative: string)
    requires MatchOf(available, relative).Some?
    ensures EndsWith(MatchOf(available, relative).value.path, relative)
  {
  }

  /** One file that is all there is matches every path it ends with. */
  lemma OnlyFileMatches(path: string, relative: string)
    requires EndsWith(path, relative)
    ensures MatchOf([Available(path, None)], relative) == Some(Available(path, None))
  {
    var available := [Available(path, None)];
    assert available[..0] == [];
    assert ByPath(available) == map[path := available[0]];
    assert Matches(available, relative) == {path};
  }

  /** A plan's steps match different files, whatever files there are, exactly when no path ends
      another. */
  lemma DistinctMatchesIff(plan: Plan)
    ensures (forall available :: DistinctMatches(plan, available)) <==> NoEndings(plan)
  {
    if NoEndings(plan) {
      forall available
        ensures DistinctMatches(plan, available)
      {
        NoEndingsMatchApart(plan, available);
      }
    } else {
      var i, j :| 0 <= i < |plan| && 0 <= j < |plan| && i != j && IsBlueprint(plan[i]) && IsBlueprint(plan[j])
        && EndsWith(plan[i].relative, plan[j].relative);
      OnlyFileMatches(plan[i].relative, plan[i].relative);
      OnlyFileMatches(plan[i].relative, plan[j].relative);
      assert !DistinctMatches(plan, [Available(plan[i].relative, None)]);
    }
  }

  lemma NoEndingsMatchApart(plan: Plan, available: seq<Available>)
    requires NoEndings(plan)
    ensures DistinctMatches(plan, available)
  {
    hide MatchOf, EndsWith;
    forall i, j | 0 <= i < j < |plan| && IsBlueprint(plan[i]) && IsBlueprint(plan[j])
      && MatchOf(available, plan[i].relative).Some? && MatchOf(available, plan[j].relative).Some?
      ensures MatchOf(available, plan[i].relative).value.path != MatchOf(available, plan[j].relative).value.path
    {
      MatchEnds(available, plan[i].relative);
      MatchEnds(available, plan[j].relative);
      var p := MatchOf(available, plan[i].relative).value.path;
      if p == MatchOf(available, plan[j].relative).value.path {
        if |plan[j].relative| <= |plan[i].relative| {
          EndsNest(p, plan[i].relative, plan[j].relative);
        } else {
          EndsNest(p, plan[j].relative, plan[i].relative);
        }
      }
    }
  }

  // ----- The program's plan -----

  /** The `k`-th character from the end; a full stop, if there are not so many. */
  function FromEnd(s: string, k: nat): char {
    if 0 < k <= |s| then s[|s| - k] else '.'
  }

  lemma EndingAgrees(a: string, b: string, k: nat)
    requires EndsWith(a, b) && 0 < k <= |b|
    ensures FromEnd(a, k) == FromEnd(b, k)
  {
    assert a[|a| - |b|..][|b| - k] == b[|b| - k];
  }

  /** Neither path ends the other, as one of four places shows. */
  predicate EndApart(a: string, b: string) {
    || (|a| >= 8 && |b| >= 8 && (FromEnd(a, 6) != FromEnd(b, 6)
          || FromEnd(a, 7) != FromEnd(b, 7) || FromEnd(a, 8) != FromEnd(b, 8)))
    || (|a| >= 14 && |b| >= 14 && FromEnd(a, 14) != FromEnd(b, 14))
  }

  lemma EndApartMeans(a: string, b: string)
    requires EndApart(a, b)
    ensures !EndsWith(a, b) && !EndsWith(b, a)
  {
    hide EndsWith, FromEnd;
    if EndsWith(a, b) {
      EndsAgree(a, b);
    }
    if EndsWith(b, a) {
      EndsAgree(b, a);
    }
  }

  lemma EndsAgree(a: string, b: string)
    requires EndsWith(a, b)
    ensures |b| >= 8 ==>
      FromEnd(a, 6) == FromEnd(b, 6) && FromEnd(a, 7) == FromEnd(b, 7) && FromEnd(a, 8) == FromEnd(b, 8)
    ensures |b| >= 14 ==> FromEnd(a, 14) == FromEnd(b, 14)
  {
    hide FromEnd;
    if |b| >= 8 {
      EndingAgrees(a, b, 6);
      EndingAgrees(a, b, 7);
      EndingAgrees(a, b, 8);
    }
    if |b| >= 14 {
      EndingAgrees(a, b, 14);
    }
  }

  /** The name of the file ends in these three letters. */
  predicate Stem(s: string, end: string) {
    |s| >= 8 && |end| == 3 && FromEnd(s, 8) == end[0] && FromEnd(s, 7) == end[1] && FromEnd(s, 6) == end[2]
  }

  lemma GroupsStems()
    ensures Stem(FIRST_STEPS[0].relative, "ups")
    ensures Stem(FIRST_STEPS[1].relative, "les")
  {
  }

  lemma GroupsHaveNoSlash()
    ensures '/' !in FIRST_STEPS[0].relative
    ensures '/' !in FIRST_STEPS[1].relative
  {
    assert FIRST_STEPS[0].relative == "10-groups.yaml";
    assert FIRST_STEPS[1].relative == "15-roles.yaml";
    assert '/' !in "10-groups.yaml";
    assert '/' !in "15-roles.yaml";
  }

  lemma FlowsStems()
    ensures Stem(CUSTOM_STEPS[0].relative, "ows")
    ensures Stem(CUSTOM_STEPS[1].relative, "ies")
  {
  }

  lemma BrandFlowsHasNoSlash()
    ensures '/' !in CUSTOM_STEPS[0].relative
  {
    assert '/' !in "24-brand-flows.yaml";
  }

  lemma AuthPoliciesHasNoSlash()
    ensures '/' !in CUSTOM_STEPS[1].relative
  {
    assert '/' !in "25-default-auth-policies.yaml";
  }

  lemma CustomStems()
    ensures Stem(CUSTOM_STEPS[2].relative, "low")
    ensures Stem(CUSTOM_STEPS[4].relative, "ons")
    ensures Stem(CUSTOM_STEPS[5].relative, "idc")
  {
  }

  lemma ApprovalFlowHasNoSlash()
    ensures '/' !in CUSTOM_STEPS[2].relative
  {
    assert '/' !in "26-registration-approval-flow.yaml";
  }

  lemma NotificationsHasNoSlash()
    ensures '/' !in CUSTOM_STEPS[4].relative
  {
    assert '/' !in "70-notifications.yaml";
  }

  lemma ProxmoxOidcHasNoSlash()
    ensures '/' !in CUSTOM_STEPS[5].relative
  {
    assert '/' !in "85-proxmox-oidc.yaml";
  }

  lemma ProvidersStems()
    ensures Stem(LAST_STEPS[0].relative, "ers")
    ensures Stem(LAST_STEPS[1].relative, "nts")
  {
  }

  lemma ProvidersHaveNoSlash()
    ensures '/' !in LAST_STEPS[0].relative
    ensures '/' !in LAST_STEPS[1].relative
  {
    assert LAST_STEPS[0].relative == "30-providers.yaml";
    assert LAST_STEPS[1].relative == "50-service-accounts.yaml";
    assert '/' !in "30-providers.yaml";
    assert '/' !in "50-service-accounts.yaml";
  }

  lemma LastStems()
    ensures Stem(LAST_STEPS[2].relative, "ons")
    ensures Stem(LAST_STEPS[3].relative, "sts")
    ensures Stem(LAST_STEPS[4].relative, "pps")
  {
  }

  lemma ApplicationsHaveNoSlash()
    ensures '/' !in LAST_STEPS[2].relative
  {
    assert LAST_STEPS[2].relative == "40-applications.yaml";
    assert '/' !in "40-applications.yaml";
  }

  lemma LastHaveNoSlash()
    ensures '/' !in LAST_STEPS[3].relative
    ensures '/' !in LAST_STEPS[4].relative
  {
    assert LAST_STEPS[3].relative == "60-outposts.yaml";
    assert LAST_STEPS[4].relative == "80-oidc-apps.yaml";
    assert '/' !in "60-outposts.yaml";
    assert '/' !in "80-oidc-apps.yaml";
  }

  lemma NotificationsAreNoApplications()
    ensures |CUSTOM_STEPS[4].relative| >= 14 && |LAST_STEPS[2].relative| >= 14
    ensures FromEnd(CUSTOM_STEPS[4].relative, 14) != FromEnd(LAST_STEPS[2].relative, 14)
  {
  }

  /** Twelve paths told apart by the ends of their names. */
  lemma StemsApart(plan: Plan)
    requires |plan| == 13 && plan[5].name == NAVIDROME
    requires Stem(plan[0].relative, "ups")
    requires Stem(plan[1].relative, "les")
    requires Stem(plan[2].relative, "ows")
    requires Stem(plan[3].relative, "ies")
    requires Stem(plan[4].relative, "low")
    requires Stem(plan[6].relative, "ons")
    requires Stem(plan[7].relative, "idc")
    requires Stem(plan[8].relative, "ers")
    requires Stem(plan[9].relative, "nts")
    requires Stem(plan[10].relative, "ons")
    requires Stem(plan[11].relative, "sts")
    requires Stem(plan[12].relative, "pps")
    requires |plan[6].relative| >= 14 && |plan[10].relative| >= 14
    requires FromEnd(plan[6].relative, 14) != FromEnd(plan[10].relative, 14)
    ensures NoEndings(plan)
  {
    hide EndsWith, FromEnd;
    forall i, j | 0 <= i < j < 13 && i != 5 && j != 5
      ensures !EndsWith(plan[i].relative, plan[j].relative) && !EndsWith(plan[j].relative, plan[i].relative)
    {
      EndApartMeans(plan[i].relative, plan[j].relative);
    }
  }

  lemma FixedPaths()
    ensures NoEndings(FIXED) && forall i | 0 <= i < |FIXED| && i != 5 :: '/' !in FIXED[i].relative
    ensures |FIXED| == 13 && FIXED[5].name == NAVIDROME
  {
    hide NoEndings, Stem, FromEnd;
    GroupsStems();
    FlowsStems();
    CustomStems();
    ProvidersStems();
    LastStems();
    NotificationsAreNoApplications();
    StemsApart(FIXED);
    GroupsHaveNoSlash();
    BrandFlowsHasNoSlash();
    AuthPoliciesHasNoSlash();
    ApprovalFlowHasNoSlash();
    NotificationsHasNoSlash();
    ProxmoxOidcHasNoSlash();
    ProvidersHaveNoSlash();
    ApplicationsHaveNoSlash();
    LastHaveNoSlash();
  }

  /** A flow's path does not end a path without a slash, nor the path of another flow whose
      slug has no slash. */
  lemma FlowEndsNothing(slug: string, path: string)
    requires '/' !in path
    ensures !EndsWith(path, FlowStep(slug).relative)
  {
    var flow := FlowStep(slug).relative;
    assert flow[8] == '/';
  }

  lemma FlowsEndNoFlow(a: string, b: string)
    requires '/' !in a && a != b
    ensures !EndsWith(FlowStep(a).relative, FlowStep(b).relative)
  {
    var p, q := FlowStep(a).relative, FlowStep(b).relative;
    assert p[9..][..|a|] == a && q[9..][..|b|] == b && q[8] == '/';
    var shift := |p| - |q|;
    assert shift > 0 ==> p[shift + 8] == a[shift - 1];
  }

  /** The flow's file is not also what a fixed step stands for. */
  ghost predicate ApartFromFixed(slug: string) {
    forall i | 0 <= i < |FIXED| && IsBlueprint(FIXED[i]) :: !EndsWith(FlowStep(slug).relative, FIXED[i].relative)
  }

  ghost predicate FlowSlugs(slugs: seq<string>) {
    && (forall i, j | 0 <= i < j < |slugs| :: slugs[i] != slugs[j])
    && (forall i | 0 <= i < |slugs| :: '/' !in slugs[i])
  }

  lemma FlowNamesAreBlueprints(slug: string)
    ensures IsBlueprint(FlowStep(slug))
  {
    assert FlowStep(slug).name[10] == FLOW_PREFIX[10] == 'f' && NAVIDROME[10] == 'n';
  }

  /** Flow steps between other steps: no path ends another, exactly if none of the others' paths
      ends a flow's. */
  lemma FlowsBetweenEndings(first: Plan, slugs: seq<string>, rest: Plan)
    requires FlowSlugs(slugs) && NoEndings(first + rest)
    requires forall i | 0 <= i < |first + rest| && IsBlueprint((first + rest)[i]) :: '/' !in (first + rest)[i].relative
    ensures NoEndings(first + FlowSteps(slugs) + rest) <==>
      forall i, k | 0 <= i < |first + rest| && IsBlueprint((first + rest)[i]) && 0 <= k < |slugs| ::
        !EndsWith(FlowStep(slugs[k]).relative, (first + rest)[i].relative)
  {
    hide EndsWith, FlowStep, IsBlueprint;
    var flows, fixed, plan := FlowSteps(slugs), first + rest, first + FlowSteps(slugs) + rest;
    var n, f := |flows|, |first|;
    assert forall i | 0 <= i < |plan| ::
      plan[i] == if f <= i < f + n then flows[i - f] else fixed[if i < f then i else i - n];
    if forall i, k | 0 <= i < |fixed| && IsBlueprint(fixed[i]) && 0 <= k < n ::
        !EndsWith(FlowStep(slugs[k]).relative, fixed[i].relative) {
      forall i, j | 0 <= i < |plan| && 0 <= j < |plan| && i != j && IsBlueprint(plan[i]) && IsBlueprint(plan[j])
        ensures !EndsWith(plan[i].relative, plan[j].relative)
      {
        if f <= j < f + n {
          if f <= i < f + n {
            FlowsEndNoFlow(slugs[i - f], slugs[j - f]);
          } else {
            FlowEndsNothing(slugs[j - f], plan[i].relative);
          }
        }
      }
    }
    if NoEndings(plan) {
      forall i, k | 0 <= i < |fixed| && IsBlueprint(fixed[i]) && 0 <= k < n
        ensures !EndsWith(FlowStep(slugs[k]).relative, fixed[i].relative)
      {
        FlowNamesAreBlueprints(slugs[k]);
        var at := if i < f then i else i + n;
        assert plan[at] == fixed[i] && plan[f + k] == flows[k];
      }
    }
  }

  /** The program's plan matches different files, whatever files there are, exactly when no fixed
      step's path ends a flow's path. */
  lemma PlanMatchesApartIff(slugs: seq<string>)
    requires FlowSlugs(slugs)
    ensures (forall available :: DistinctMatches(BlueprintPlanFor(slugs), available)) <==>
      forall k | 0 <= k < |slugs| :: ApartFromFixed(slugs[k])
  {
    hide NoEndings, DistinctMatches, EndsWith, FlowStep;
    FixedPaths();
    var first, rest := FIRST_STEPS, CUSTOM_STEPS + LAST_STEPS;
    assert first + rest == FIXED;
    assert first + FlowSteps(slugs) + rest == BlueprintPlanFor(slugs);
    FlowsBetweenEndings(first, slugs, rest);
    DistinctMatchesIff(BlueprintPlanFor(slugs));
  }
}
