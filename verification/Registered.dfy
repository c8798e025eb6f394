/** The registry of tests/regression/run_lxc_lifecycle_regressions.py, how it is divided into
    stages, and the cache namespace each pooled launcher gets. */
module Registered {
  import opened Sorting
  import opened Text
  import Pool
  import Suite

  const FAST: seq<string> := [
    "lxc_lifecycle_decision_launcher.py",
    "lxc_lifecycle_planning_barrier_launcher.py"]

  const FULL_ONLY: seq<string> := [
    "lifecycle_run_lock_launcher.py",
    "inspect_command_launcher.py",
    "recover_command_launcher.py",
    "lxc_lifecycle_invalid_state_launcher.py",
    "lxc_lifecycle_guest_bootstrap_contract_launcher.py",
    "lxc_spec_contract_launcher.py",
    "proxmox_lxc_provision_contract_launcher.py",
    "proxmox_lxc_lifecycle_configure_check_mode_absent_launcher.py",
    "proxmox_lxc_lifecycle_created_guest_launcher.py",
    "proxmox_lxc_lifecycle_observation_status_launcher.py",
    "lxc_manual_ssh_recovery_launcher.py",
    "proxmox_host_ssh_enrollment_launcher.py",
    "proxmox_host_ssh_trust_launcher.py",
    "lxc_ssh_key_injector_identity_mismatch_launcher.py",
    "lxc_fleet_preflight_launcher.py",
    "proxmox_lxc_host_config_check_mode_missing_config_launcher.py",
    "proxmox_lxc_host_config_observation_failure_launcher.py",
    "proxmox_lxc_host_config_readiness_deadline_launcher.py",
    "lxc_docker_runtime_daemon_options_launcher.py",
    "lxc_nvidia_runtime_repository_launcher.py",
    "lxc_lifecycle_wiring_launcher.py",
    "lxc_busy_check_launcher.py",
    "proxmox_lxc_host_config_result_launcher.py",
    "hawser_standard_remote_default_launcher.py",
    "controller_prerequisite_fact_cache_launcher.py"]

  const SERIAL_ONLY: seq<string> := [
    "lifecycle_run_lock_launcher.py",
    "proxmox_lxc_host_config_readiness_deadline_launcher.py"]

  /** Everything that need not run alone goes through the pool. */
  function Besides(serial: seq<string>): string -> bool {
    s => s !in serial
  }

  const POOLED := Select(FULL_ONLY, Besides(SERIAL_ONLY))

  const REGISTERED := FAST + FULL_ONLY

  const REGISTRY := Suite.Registry(FAST, POOLED, SERIAL_ONLY)

  ghost predicate Distinct<T>(s: seq<T>) {
    forall i, j | 0 <= i < j < |s| :: s[i] != s[j]
  }

  lemma {:induction false} DistinctCount<T>(s: seq<T>, x: T)
    requires Distinct(s)
    ensures multiset(s)[x] == if x in s then 1 else 0
    decreases |s|
  {
    if s != [] {
      var front, last := s[..|s| - 1], s[|s| - 1];
      assert s == front + [last];
      DistinctCount(front, x);
      assert last !in front;
    }
  }

  /** Setting aside the launchers that run alone loses none and repeats none. */
  lemma StagesPartition(scripts: seq<string>, serial: seq<string>)
    requires Distinct(scripts) && Distinct(serial) && forall s | s in serial :: s in scripts
    ensures multiset(Select(scripts, Besides(serial))) + multiset(serial) == multiset(scripts)
  {
    var parts := multiset(Select(scripts, Besides(serial))) + multiset(serial);
    forall x
      ensures parts[x] == multiset(scripts)[x]
    {
      SelectCounts(scripts, Besides(serial), x);
      DistinctCount(scripts, x);
      DistinctCount(serial, x);
    }
  }

  lemma StagesOf(fast: seq<string>, full: seq<string>, serial: seq<string>)
    requires Distinct(fast + full) && Distinct(serial) && forall s | s in serial :: s in full
    ensures multiset(fast) + multiset(Select(full, Besides(serial))) + multiset(serial) == multiset(fast + full)
  {
    TailDistinct(fast, full);
    StagesPartition(full, serial);
  }

  /** The three stages hold every registered script exactly once. */
  lemma StagesPartitionRegistry()
    ensures Distinct(REGISTERED)
    ensures multiset(REGISTRY.fast) + multiset(REGISTRY.pooled) + multiset(REGISTRY.serial) == multiset(REGISTERED)
  {
    hide Distinct, Select;
    RegisteredDistinct();
    SerialIsRegistered();
    StagesOf(FAST, FULL_ONLY, SERIAL_ONLY);
  }

  /** The program as it is: the run of the actual registry. A passing full run, and any full run
      without fail-fast, launches every registered script exactly once. */
  method RunAll(full: bool, failFast: bool, only: seq<string>, outcomes: Suite.Outcomes)
    returns (status: int, ghost launches: seq<Suite.Launch>, ghost trace: Pool.Trace, ghost alone: nat)
    ensures only == [] ==> Suite.StageByStage(REGISTRY, full, failFast, outcomes, launches, trace, alone)
    ensures status == (if Suite.SelectionPasses(REGISTRY, full, only, outcomes) then 0 else 1)
    ensures status == 0 <==> Suite.AllPassed(launches)
    ensures only == [] && full && (status == 0 || !failFast) ==> LaunchesEachOnce(launches)
  {
    hide LaunchesEachOnce, Suite.SelectionPasses, Suite.AllPassed, Suite.Scripts, Suite.StageByStage;
    status, launches, trace, alone := Suite.RunRegressions(REGISTRY, full, failFast, only, outcomes);
    if only == [] && full && (status == 0 || !failFast) {
      WholeRegistry(launches);
    }
  }

  /** Every registered script is launched, once, and nothing else is. */
  ghost predicate LaunchesEachOnce(launches: seq<Suite.Launch>) {
    multiset(Suite.Scripts(launches)) == multiset(REGISTERED) && Distinct(Suite.Scripts(launches))
  }

  /** The launchers of the registry, stage by stage. */
  function Staged(registry: Suite.Registry): multiset<string> {
    multiset(registry.fast) + multiset(registry.pooled) + multiset(registry.serial)
  }

  lemma WholeRegistry(launches: seq<Suite.Launch>)
    ensures multiset(Suite.Scripts(launches)) == Staged(REGISTRY) ==> LaunchesEachOnce(launches)
  {
    hide Distinct, Select, Suite.Scripts;
    StagesPartitionRegistry();
    EachOnce(Suite.Scripts(launches), Staged(REGISTRY), REGISTERED);
  }

  lemma EachOnce(scripts: seq<string>, staged: multiset<string>, registered: seq<string>)
    requires Distinct(registered) && staged == multiset(registered)
    ensures multiset(scripts) == staged ==> multiset(scripts) == multiset(registered) && Distinct(scripts)
  {
    hide Distinct;
    if multiset(scripts) == staged {
      PermutationDistinct(registered, scripts);
    }
  }

  lemma PermutationDistinct<T>(s: seq<T>, t: seq<T>)
    requires Distinct(s) && multiset(s) == multiset(t)
    ensures Distinct(t)
  {
    forall i, j | 0 <= i < j < |t|
      ensures t[i] != t[j]
    {
      if t[i] == t[j] {
        CountTwice(t, i, j);
        DistinctCount(s, t[i]);
      }
    }
  }

  lemma TailDistinct<T>(a: seq<T>, b: seq<T>)
    requires Distinct(a + b)
    ensures Distinct(b)
  {
    forall i, j | 0 <= i < j < |b|
      ensures b[i] != b[j]
    {
      assert (a + b)[|a| + i] != (a + b)[|a| + j];
    }
  }

  lemma SerialIsRegistered()
    ensures Distinct(SERIAL_ONLY) && forall s | s in SERIAL_ONLY :: s in FULL_ONLY
  {
    assert FULL_ONLY[0] == SERIAL_ONLY[0] && FULL_ONLY[17] == SERIAL_ONLY[1];
    assert |SERIAL_ONLY[0]| == 30 && |SERIAL_ONLY[1]| == 54;
  }

  /** Names of different lengths differ; the pairs of equal length are told apart one by one. */
  lemma ToldApart(s: seq<string>)
    requires |s| == 27
    requires |s[0]| == 34 && |s[1]| == 42 && |s[2]| == 30 && |s[3]| == 27 && |s[4]| == 27 && |s[5]| == 39
    requires |s[6]| == 50 && |s[7]| == 29 && |s[8]| == 42 && |s[9]| == 61 && |s[10]| == 47 && |s[11]| == 52
    requires |s[12]| == 35 && |s[13]| == 39 && |s[14]| == 34 && |s[15]| == 50 && |s[16]| == 31 && |s[17]| == 61
    requires |s[18]| == 55 && |s[19]| == 54 && |s[20]| == 45 && |s[21]| == 41 && |s[22]| == 32 && |s[23]| == 26
    requires |s[24]| == 42 && |s[25]| == 42 && |s[26]| == 46
    requires s[0] != s[14] && s[1] != s[8] && s[1] != s[24] && s[1] != s[25] && s[3] != s[4] && s[5] != s[13]
    requires s[6] != s[15] && s[8] != s[24] && s[8] != s[25] && s[9] != s[17] && s[24] != s[25]
    ensures Distinct(s)
  {
  }

  lemma Lengths()
    ensures |FAST[0]| == 34 && |FAST[1]| == 42
    ensures |FULL_ONLY[0]| == 30 && |FULL_ONLY[1]| == 27 && |FULL_ONLY[2]| == 27 && |FULL_ONLY[3]| == 39
    ensures |FULL_ONLY[4]| == 50 && |FULL_ONLY[5]| == 29 && |FULL_ONLY[6]| == 42 && |FULL_ONLY[7]| == 61
    ensures |FULL_ONLY[8]| == 47 && |FULL_ONLY[9]| == 52 && |FULL_ONLY[10]| == 35 && |FULL_ONLY[11]| == 39
    ensures |FULL_ONLY[12]| == 34 && |FULL_ONLY[13]| == 50 && |FULL_ONLY[14]| == 31 && |FULL_ONLY[15]| == 61
    ensures |FULL_ONLY[16]| == 55 && |FULL_ONLY[17]| == 54 && |FULL_ONLY[18]| == 45 && |FULL_ONLY[19]| == 41
    ensures |FULL_ONLY[20]| == 32 && |FULL_ONLY[21]| == 26 && |FULL_ONLY[22]| == 42 && |FULL_ONLY[23]| == 42
    ensures |FULL_ONLY[24]| == 46
  {
  }

  lemma LongNamesDiffer()
    ensures FULL_ONLY[4] != FULL_ONLY[13] && FULL_ONLY[7] != FULL_ONLY[15] && FULL_ONLY[3] != FULL_ONLY[11]
  {
  }

  lemma NamesOf42Differ()
    ensures FAST[1] != FULL_ONLY[6] && FAST[1] != FULL_ONLY[22] && FAST[1] != FULL_ONLY[23]
    ensures FULL_ONLY[6] != FULL_ONLY[22] && FULL_ONLY[6] != FULL_ONLY[23] && FULL_ONLY[22] != FULL_ONLY[23]
  {
  }

  lemma ShortNamesDiffer()
    ensures FAST[0] != FULL_ONLY[12] && FULL_ONLY[1] != FULL_ONLY[2]
  {
  }

  lemma RegisteredDistinct()
    ensures Distinct(REGISTERED)
  {
    hide Distinct;
    Lengths();
    LongNamesDiffer();
    NamesOf42Differ();
    ShortNamesDiffer();
    ToldApart(REGISTERED);
  }

  // ----- Cache namespaces -----

  function Stem(script: string): string {
    if EndsWith(script, ".py") then script[..|script| - 3] else script
  }

  function SharedNamespace(root: string): string {
    root + "/fact-cache"
  }

  /** `pooled_environment`: the namespace of one pooled launcher. */
  function Namespace(root: string, script: string): string {
    root + "/fact-cache-" + Stem(script)
  }

  lemma StemsTellNamespacesApart(root: string, a: string, b: string)
    ensures Namespace(root, a) == Namespace(root, b) <==> Stem(a) == Stem(b)
    ensures EndsWith(a, ".py") && EndsWith(b, ".py") ==> (Stem(a) == Stem(b) <==> a == b)
    ensures Namespace(root, a) != SharedNamespace(root)
  {
    var n := |root + "/fact-cache-"|;
    assert Namespace(root, a)[n..] == Stem(a) && Namespace(root, b)[n..] == Stem(b);
    if EndsWith(a, ".py") && EndsWith(b, ".py") {
      assert a == Stem(a) + ".py" && b == Stem(b) + ".py";
    }
    assert |Namespace(root, a)| > |SharedNamespace(root)|;
  }

  /** At every moment of every pooled run, the launchers in flight have namespaces of their own. */
  lemma InFlightNamespaces(trace: Pool.Trace, scripts: seq<string>, workers: nat, failFast: bool, root: string,
      j: nat, k: nat)
    requires Pool.Legal(trace, |scripts|, workers, failFast)
    requires Distinct(scripts) && forall s | s in scripts :: EndsWith(s, ".py")
    requires j in Pool.InFlight(trace) && k in Pool.InFlight(trace) && j != k
    ensures j < |scripts| && k < |scripts|
    ensures Namespace(root, scripts[j]) != Namespace(root, scripts[k])
    ensures Namespace(root, scripts[j]) != SharedNamespace(root)
  {
    Pool.LegalAccounting(trace, |scripts|, workers, failFast);
    StemsTellNamespacesApart(root, scripts[j], scripts[k]);
  }
}
