/** scripts/live_dependencies.py: reconciling the dependencies one playbook consumes, alone and
    with other reconcilers of the same worktree. */
module Dependencies {
  import opened Results

  datatype Dep = Collection(name: string) | Role(name: string)

  type Installed = map<Dep, string>

  /** The declared versions; both kinds of requirements file in one map. */
  type Pins = map<Dep, string>

  predicate AtPin(installed: Installed, pins: Pins, d: Dep) {
    d in pins && d in installed && installed[d] == pins[d]
  }

  // ----- One reconciler by itself -----

  /** Both tables hold the same, or nothing, for the dependency. */
  predicate SameAt(a: Installed, b: Installed, d: Dep) {
    (d in a <==> d in b) && (d in a ==> a[d] == b[d])
  }

  /** A run of ansible-galaxy and whether it reported success. */
  datatype GalaxyRun = GalaxyRun(d: Dep, ok: bool)

  function Succeeding(deps: seq<Dep>): (r: seq<GalaxyRun>)
    ensures |r| == |deps| && forall i | 0 <= i < |r| :: r[i] == GalaxyRun(deps[i], true)
  {
    seq(|deps|, i requires 0 <= i < |deps| => GalaxyRun(deps[i], true))
  }

  datatype Problem = NotPinned(d: Dep) | GalaxyFailed(d: Dep) | WrongVersion(d: Dep, found: Option<string>)

  class Worktree {
    var installed: Installed
    /** The runs of ansible-galaxy, in order. */
    var runs: seq<GalaxyRun>

    /** Galaxy may leave anything, or nothing, in the place of the named dependency, whether it
        reports success or not, and touches no other. */
    method RunGalaxy(d: Dep) returns (ok: bool)
      modifies this
      ensures runs == old(runs) + [GalaxyRun(d, ok)]
      ensures forall e | e != d :: SameAt(installed, old(installed), e)
    {
      ok := *;
      var kept: bool := *;
      var version: string := *;
      runs := runs + [GalaxyRun(d, ok)];
      if kept {
        installed := installed[d := version];
      } else {
        installed := installed - {d};
      }
    }

    /** `_reconcile_collections` and `_reconcile_roles`: check, install, verify, name by name. */
    method Reconcile(names: seq<Dep>, pins: Pins) returns (r: Result<(), Problem>)
      modifies this
      ensures r.Ok? ==> forall d | d in names :: AtPin(installed, pins, d)
      // What is not consumed, and what was at its pin, is not touched.
      ensures forall d | d !in names || AtPin(old(installed), pins, d) ::
        SameAt(installed, old(installed), d)
      // Galaxy runs for the names that are not at their pin, in order, once each, and succeeds.
      ensures r.Ok? ==> runs == old(runs) + Succeeding(Needed(names, pins, old(installed)))
      // Every complaint is about the first name that gives rise to one, and true.
      ensures r.Err? ==> exists i ::
        StoppedAt(names, pins, old(installed), installed, i, old(runs), runs, r.error)
    {
      hide Needed;
      NothingNeeded(pins, installed);
      assert runs == old(runs) + Succeeding([]);
      for i := 0 to |names|
        invariant forall d | d in names[..i] :: AtPin(installed, pins, d)
        invariant forall d | d !in names[..i] || AtPin(old(installed), pins, d) :: SameAt(installed, old(installed), d)
        invariant runs == old(runs) + Succeeding(Needed(names[..i], pins, old(installed)))
      {
        var d := names[i];
        assert names[..i + 1] == names[..i] + [d];
        NeededStep(names[..i], pins, old(installed), d);
        if d !in pins {
          StopsHere(names, pins, old(installed), installed, i, old(runs), runs, NotPinned(d));
          return Err(NotPinned(d));
        }
        if d in installed && installed[d] == pins[d] {
          continue;
        }
        assert d !in names[..i] && !AtPin(old(installed), pins, d);
        ghost var before := installed;
        var ok := RunGalaxy(d);
        forall e | e !in names[..i + 1] || AtPin(old(installed), pins, e)
          ensures SameAt(installed, old(installed), e)
        {
          assert SameAt(installed, before, e) && SameAt(before, old(installed), e);
        }
        forall e | e in names[..i]
          ensures AtPin(installed, pins, e)
        {
          assert SameAt(installed, before, e) && AtPin(before, pins, e);
        }
        if !ok {
          StopsHere(names, pins, old(installed), installed, i, old(runs), runs, GalaxyFailed(d));
          return Err(GalaxyFailed(d));
        }
        if !(d in installed && installed[d] == pins[d]) {
          var found := if d in installed then Some(installed[d]) else None;
          assert !AtPin(installed, pins, d);
          StopsHere(names, pins, old(installed), installed, i, old(runs), runs, WrongVersion(d, found));
          return Err(WrongVersion(d, found));
        }
        OneMoreSucceeded(old(runs), Needed(names[..i], pins, old(installed)), d);
      }
      assert names[..|names|] == names;
      return Ok(());
    }
  }

  /** The names not at their pin, each at its first place. */
  function Needed(names: seq<Dep>, pins: Pins, installed: Installed): seq<Dep> {
    if names == [] then []
    else
      var front, d := names[..|names| - 1], names[|names| - 1];
      Needed(front, pins, installed) + (if AtPin(installed, pins, d) || d in front then [] else [d])
  }

  lemma NeededStep(front: seq<Dep>, pins: Pins, installed: Installed, d: Dep)
    ensures Needed(front + [d], pins, installed) ==
      Needed(front, pins, installed) + (if AtPin(installed, pins, d) || d in front then [] else [d])
  {
    assert (front + [d])[..|front|] == front;
  }

  lemma NothingNeeded(pins: Pins, installed: Installed)
    ensures Needed([], pins, installed) == []
  {
  }

  lemma OneMoreSucceeded(runs: seq<GalaxyRun>, deps: seq<Dep>, d: Dep)
    ensures runs + Succeeding(deps) + [GalaxyRun(d, true)] == runs + Succeeding(deps + [d])
  {
  }

  /** The reconciler stops at name `i` with the error: all names before are at their pins, galaxy
      has succeeded for those that were not, and its last run, if it comes to one, is for this
      name and has failed exactly if the error says so. */
  ghost predicate StoppedAt(names: seq<Dep>, pins: Pins, before: Installed, after: Installed, i: int,
      earlier: seq<GalaxyRun>, runs: seq<GalaxyRun>, error: Problem)
  {
    && 0 <= i < |names| && error.d == names[i]
    && (forall d | d in names[..i] :: AtPin(after, pins, d))
    && var done := earlier + Succeeding(Needed(names[..i], pins, before));
       match error
       case NotPinned(d) => d !in pins && runs == done
       case GalaxyFailed(d) => d in pins && !AtPin(before, pins, d) && runs == done + [GalaxyRun(d, false)]
       case WrongVersion(d, found) =>
         && d in pins && !AtPin(before, pins, d) && runs == done + [GalaxyRun(d, true)]
         && !AtPin(after, pins, d) && found == (if d in after then Some(after[d]) else None)
  }

  lemma StopsHere(names: seq<Dep>, pins: Pins, before: Installed, after: Installed, i: int,
      earlier: seq<GalaxyRun>, runs: seq<GalaxyRun>, error: Problem)
    requires StoppedAt(names, pins, before, after, i, earlier, runs, error)
    ensures exists k :: StoppedAt(names, pins, before, after, k, earlier, runs, error)
  {
  }

  // ----- Reconcilers side by side -----

  /** The processes, each with the dependencies it consumes in the order it reconciles them, and
      the pins they all read. */
  datatype Config = Config(consumes: seq<seq<Dep>>, pins: Pins)

  /** Where a process is; `k` is the place of the dependency it is at. */
  datatype Phase =
    | Outside
    | Checking(k: nat)
    | Installing(k: nat)
    | Verifying(k: nat)
    | Succeeded
    | Failed

  /** The installed table, the lock, the processes, and the dependencies that galaxy runs whose
      reconciler was killed are still at. */
  datatype State = State(installed: Installed, holder: Option<nat>, phases: seq<Phase>, orphans: multiset<Dep>)

  predicate Inside(phase: Phase) {
    phase.Checking? || phase.Installing? || phase.Verifying?
  }

  predicate WellFormed(c: Config, s: State) {
    |s.phases| == |c.consumes| && forall p | 0 <= p < |s.phases| ::
      match s.phases[p]
      case Checking(k) => k <= |c.consumes[p]|
      case Installing(k) => k < |c.consumes[p]|
      case Verifying(k) => k < |c.consumes[p]|
      case _ => true
  }

  function Leave(s: State, p: nat, phase: Phase): State
    requires p < |s.phases|
  {
    s.(holder := None, phases := s.phases[p := phase])
  }

  /** Galaxy writes what it likes in the place of the dependency. */
  ghost predicate Writes(s: State, t: State, d: Dep) {
    && t.holder == s.holder && t.phases == s.phases && t.orphans == s.orphans
    && forall e | e != d :: SameAt(t.installed, s.installed, e)
  }

  /** A galaxy run without a reconciler writes, or ends. */
  ghost predicate OrphanStep(s: State, t: State, d: Dep) {
    d in s.orphans && (Writes(s, t, d) || t == s.(orphans := s.orphans - multiset{d}))
  }

  /** One step of process `p`. With `locked` false the lock is left out. */
  ghost predicate Step(c: Config, locked: bool, s: State, t: State, p: nat)
    requires WellFormed(c, s)
  {
    && p < |s.phases|
    && var deps := c.consumes[p];
    match s.phases[p]
    case Outside =>
      // With nothing consumed the lock need not be taken.
      || (deps == [] && t == s.(phases := s.phases[p := Succeeded]))
      || ((locked ==> s.holder.None?) && t == s.(holder := Some(p), phases := s.phases[p := Checking(0)]))
    case Checking(k) =>
      || t == Leave(s, p, Failed)  // the process dies; the lock goes with it
      || (k == |deps| && t == Leave(s, p, Succeeded))
      || (k < |deps| && deps[k] in c.pins && AtPin(s.installed, c.pins, deps[k])
          && t == s.(phases := s.phases[p := Checking(k + 1)]))
      || (k < |deps| && deps[k] in c.pins && !AtPin(s.installed, c.pins, deps[k])
          && t == s.(phases := s.phases[p := Installing(k)]))
    case Installing(k) =>
      // Galaxy writes any number of times, then ends; if the process is killed, it goes on alone.
      || t == Leave(s, p, Failed)
      || t == Leave(s, p, Failed).(orphans := s.orphans + multiset{deps[k]})
      || t == s.(phases := s.phases[p := Verifying(k)])
      || Writes(s, t, deps[k])
    case Verifying(k) =>
      || t == Leave(s, p, Failed)
      || (AtPin(s.installed, c.pins, deps[k]) && t == s.(phases := s.phases[p := Checking(k + 1)]))
    case Succeeded => false
    case Failed => false
  }

  ghost predicate Moves(c: Config, locked: bool, s: State, t: State)
    requires WellFormed(c, s)
  {
    (exists p :: Step(c, locked, s, t, p)) || (exists d :: OrphanStep(s, t, d))
  }

  ghost predicate Initial(c: Config, s: State) {
    && s.holder.None? && s.orphans == multiset{}
    && |s.phases| == |c.consumes| && forall p | 0 <= p < |s.phases| :: s.phases[p] == Outside
  }

  /** A run: any interleaving, from any installed table. */
  ghost predicate Run(c: Config, locked: bool, states: seq<State>) {
    && states != [] && Initial(c, states[0])
    && (forall i | 0 <= i < |states| :: WellFormed(c, states[i]))
    && (forall i | 0 <= i < |states| - 1 :: Moves(c, locked, states[i], states[i + 1]))
  }

  /** All at their pins, apart from those some orphan has been at. */
  ghost predicate AllAtPin(c: Config, s: State, deps: seq<Dep>, lost: iset<Dep>) {
    forall i | 0 <= i < |deps| && deps[i] !in lost :: AtPin(s.installed, c.pins, deps[i])
  }

  /** Somebody is changing, or has changed and not yet verified, this dependency. */
  ghost predicate Busy(c: Config, s: State, d: Dep)
    requires WellFormed(c, s)
  {
    || d in s.orphans
    || exists p | 0 <= p < |s.phases| && (s.phases[p].Installing? || s.phases[p].Verifying?) ::
         c.consumes[p][s.phases[p].k] == d
  }

  /** At its pin and left alone. */
  ghost predicate Stable(c: Config, s: State, d: Dep)
    requires WellFormed(c, s)
  {
    AtPin(s.installed, c.pins, d) && !Busy(c, s, d)
  }

  /** Only the lock's holder is inside; what it has passed is at its pin; and so is everything a
      process that succeeded consumes, which nobody is changing; all this but for what is lost. */
  ghost predicate Invariant(c: Config, s: State, lost: iset<Dep>) {
    && WellFormed(c, s)
    && (forall d | d in s.orphans :: d in lost)
    && (forall p | 0 <= p < |s.phases| :: Inside(s.phases[p]) <==> s.holder == Some(p))
    && (forall p | 0 <= p < |s.phases| && Inside(s.phases[p]) :: AllAtPin(c, s, c.consumes[p][..s.phases[p].k], lost))
    && (forall p | 0 <= p < |s.phases| && (s.phases[p].Installing? || s.phases[p].Verifying?) ::
          c.consumes[p][s.phases[p].k] in lost || c.consumes[p][s.phases[p].k] !in c.consumes[p][..s.phases[p].k])
    && (forall p, d | 0 <= p < |s.phases| && s.phases[p] == Succeeded && d in c.consumes[p] && d !in lost ::
          Stable(c, s, d))
  }

  /** An orphan's step changes only what it is at. */
  lemma OrphanSpares(c: Config, s: State, t: State, o: Dep, d: Dep)
    requires WellFormed(c, s) && OrphanStep(s, t, o)
    ensures WellFormed(c, t)
    ensures d != o ==> SameAt(t.installed, s.installed, d)
    ensures Stable(c, s, d) ==> Stable(c, t, d)
  {
    assert forall e | e in t.orphans :: e in s.orphans;
  }

  lemma OrphanKeepsInvariant(c: Config, s: State, t: State, o: Dep, lost: iset<Dep>)
    requires Invariant(c, s, lost) && OrphanStep(s, t, o)
    ensures Invariant(c, t, lost)
  {
    hide Stable;
    OrphanSpares(c, s, t, o, o);
    assert forall e | e in t.orphans :: e in s.orphans;
    forall p | 0 <= p < |t.phases| && Inside(t.phases[p])
      ensures AllAtPin(c, t, c.consumes[p][..t.phases[p].k], lost)
    {
      assert AllAtPin(c, s, c.consumes[p][..s.phases[p].k], lost);
      forall i | 0 <= i < t.phases[p].k && c.consumes[p][i] !in lost
        ensures AtPin(t.installed, c.pins, c.consumes[p][i])
      {
        assert c.consumes[p][..s.phases[p].k][i] == c.consumes[p][i];
        OrphanSpares(c, s, t, o, c.consumes[p][i]);
      }
    }
    forall p, d | 0 <= p < |t.phases| && t.phases[p] == Succeeded && d in c.consumes[p] && d !in lost
      ensures Stable(c, t, d)
    {
      OrphanSpares(c, s, t, o, d);
    }
  }

  lemma StableStays(c: Config, locked: bool, s: State, t: State, p: nat, d: Dep)
    requires WellFormed(c, s) && WellFormed(c, t) && Step(c, locked, s, t, p) && Stable(c, s, d)
    ensures Stable(c, t, d)
  {
    var phase := s.phases[p];
    forall q | 0 <= q < |t.phases| && (t.phases[q].Installing? || t.phases[q].Verifying?)
      ensures c.consumes[q][t.phases[q].k] != d
    {
      if q != p {
        assert t.phases[q] == s.phases[q];
      }
    }
    if phase.Installing? {
      assert c.consumes[p][phase.k] != d;
      assert SameAt(t.installed, s.installed, d) && d !in t.orphans;
    }
  }

  lemma PassedStays(c: Config, s: State, t: State, p: nat, lost: iset<Dep>)
    requires Invariant(c, s, lost) && WellFormed(c, t) && Step(c, true, s, t, p)
    ensures forall q | 0 <= q < |t.phases| && Inside(t.phases[q]) ::
      AllAtPin(c, t, c.consumes[q][..t.phases[q].k], lost)
  {
    forall q | 0 <= q < |t.phases| && Inside(t.phases[q])
      ensures AllAtPin(c, t, c.consumes[q][..t.phases[q].k], lost)
    {
      if q != p {
        assert t.phases[q] == s.phases[q];
        // Only the holder is inside, so the step was taken from outside.
        assert s.phases[p] == Outside && t.installed == s.installed;
        assert AllAtPin(c, s, c.consumes[q][..s.phases[q].k], lost);
      } else {
        HolderPassed(c, s, t, p, lost);
      }
    }
  }

  /** The holder's own step keeps what it has passed, and passes only what is at its pin. */
  lemma HolderPassed(c: Config, s: State, t: State, p: nat, lost: iset<Dep>)
    requires Invariant(c, s, lost) && WellFormed(c, t) && Step(c, true, s, t, p) && Inside(t.phases[p])
    ensures AllAtPin(c, t, c.consumes[p][..t.phases[p].k], lost)
  {
    var deps, phase := c.consumes[p], s.phases[p];
    if phase != Outside {
      assert AllAtPin(c, s, deps[..phase.k], lost);
      forall i | 0 <= i < t.phases[p].k && deps[i] !in lost
        ensures AtPin(t.installed, c.pins, deps[i])
      {
        if i < phase.k {
          assert deps[..phase.k][i] == deps[i];
          if phase.Installing? {
            assert deps[i] in deps[..phase.k] && deps[i] != deps[phase.k];
            assert SameAt(t.installed, s.installed, deps[i]);
          }
        }
      }
    }
  }

  /** Who is inside holds the lock, and has not passed what galaxy is now to be run for. */
  lemma HolderStays(c: Config, s: State, t: State, p: nat, q: nat, lost: iset<Dep>)
    requires Invariant(c, s, lost) && WellFormed(c, t) && Step(c, true, s, t, p) && q < |t.phases|
    ensures Inside(t.phases[q]) <==> t.holder == Some(q)
    ensures t.phases[q].Installing? || t.phases[q].Verifying? ==>
      c.consumes[q][t.phases[q].k] in lost || c.consumes[q][t.phases[q].k] !in c.consumes[q][..t.phases[q].k]
  {
    hide Stable;
    assert Inside(s.phases[q]) <==> s.holder == Some(q);
    if q == p && s.phases[p].Checking? {
      assert AllAtPin(c, s, c.consumes[p][..s.phases[p].k], lost);
    }
  }

  lemma InvariantStays(c: Config, s: State, t: State, p: nat, lost: iset<Dep>)
    requires Invariant(c, s, lost) && WellFormed(c, t) && Step(c, true, s, t, p)
    requires forall d | d in t.orphans :: d in lost
    ensures Invariant(c, t, lost)
  {
    hide Stable, AllAtPin, AtPin;
    PassedStays(c, s, t, p, lost);
    forall q | 0 <= q < |t.phases|
      ensures Inside(t.phases[q]) <==> t.holder == Some(q)
      ensures t.phases[q].Installing? || t.phases[q].Verifying? ==>
        c.consumes[q][t.phases[q].k] in lost || c.consumes[q][t.phases[q].k] !in c.consumes[q][..t.phases[q].k]
    {
      HolderStays(c, s, t, p, q, lost);
    }
    forall q, d | 0 <= q < |t.phases| && t.phases[q] == Succeeded && d in c.consumes[q] && d !in lost
      ensures Stable(c, t, d)
    {
      if s.phases[q] == Succeeded {
        StableStays(c, true, s, t, p, d);
      } else {
        SuccessIsStable(c, s, t, q, d, lost);
      }
    }
  }

  /** At the moment a process succeeds, everything it consumes is at its pin and left alone. */
  lemma SuccessIsStable(c: Config, s: State, t: State, p: nat, d: Dep, lost: iset<Dep>)
    requires Invariant(c, s, lost) && WellFormed(c, t) && Step(c, true, s, t, p)
    requires t.phases[p] == Succeeded && d in c.consumes[p] && d !in lost
    ensures Stable(c, t, d)
  {
    var deps := c.consumes[p];
    assert s.phases[p] == Checking(|deps|);
    assert AllAtPin(c, s, deps[..|deps|], lost) && deps[..|deps|] == deps;
    forall q | 0 <= q < |t.phases|
      ensures !Inside(t.phases[q])
    {
      assert q != p ==> s.holder != Some(q);
    }
  }

  lemma MoveKeepsInvariant(c: Config, s: State, t: State, lost: iset<Dep>)
    requires Invariant(c, s, lost) && WellFormed(c, t) && Moves(c, true, s, t)
    requires forall d | d in t.orphans :: d in lost
    ensures Invariant(c, t, lost)
  {
    hide Step, OrphanStep, WellFormed, AllAtPin, Stable;
    if o :| OrphanStep(s, t, o) {
      OrphanKeepsInvariant(c, s, t, o, lost);
    } else {
      var p: nat :| Step(c, true, s, t, p);
      InvariantStays(c, s, t, p, lost);
    }
  }

  lemma MoveKeepsStable(c: Config, locked: bool, s: State, t: State, d: Dep)
    requires WellFormed(c, s) && WellFormed(c, t) && Moves(c, locked, s, t) && Stable(c, s, d)
    ensures Stable(c, t, d)
  {
    hide Step, OrphanStep, Stable;
    if o :| OrphanStep(s, t, o) {
      OrphanSpares(c, s, t, o, d);
    } else {
      var p: nat :| Step(c, locked, s, t, p);
      StableStays(c, locked, s, t, p, d);
    }
  }

  /** What some orphan is at, or has been at, by moment `i`. */
  ghost function Lost(states: seq<State>, i: nat): iset<Dep>
    requires i < |states|
  {
    iset d, m | 0 <= m <= i && d in states[m].orphans :: d
  }

  lemma {:induction false} ReachableInvariant(c: Config, states: seq<State>, i: nat, lost: iset<Dep>)
    requires Run(c, true, states) && i < |states| && Lost(states, i) <= lost
    ensures Invariant(c, states[i], lost)
    decreases i
  {
    hide Moves, Stable, AllAtPin;
    assert forall d | d in states[i].orphans :: d in Lost(states, i);
    if i > 0 {
      assert Lost(states, i - 1) <= Lost(states, i);
      ReachableInvariant(c, states, i - 1, lost);
      assert Moves(c, true, states[i - 1], states[i - 1 + 1]);
      MoveKeepsInvariant(c, states[i - 1], states[i], lost);
    }
  }

  lemma {:induction false} StableForever(c: Config, locked: bool, states: seq<State>, i: nat, j: nat, d: Dep)
    requires Run(c, locked, states) && i <= j < |states| && Stable(c, states[i], d)
    ensures Stable(c, states[j], d)
    decreases j
  {
    hide Moves, Stable, WellFormed, Initial;
    if i < j {
      StableForever(c, locked, states, i, j - 1, d);
      assert Moves(c, locked, states[j - 1], states[j - 1 + 1]);
      MoveKeepsStable(c, locked, states[j - 1], states[j], d);
    }
  }

  /** In every interleaving: whoever has succeeded has all it consumes at the declared pins from
      then on, and galaxy never again runs for any of it, but for what galaxy had by then been left
      alone at by a killed reconciler; and at most one process is ever inside. */
  lemma LockProtocol(c: Config, states: seq<State>, i: nat, j: nat, p: nat)
    requires Run(c, true, states) && i <= j < |states| && p < |c.consumes|
    ensures states[i].phases[p] == Succeeded ==>
      forall d | d in c.consumes[p] && d !in Lost(states, i) :: Stable(c, states[j], d)
    ensures forall q, r | 0 <= q < |c.consumes| && 0 <= r < |c.consumes|
      && Inside(states[j].phases[q]) && Inside(states[j].phases[r]) :: q == r
  {
    hide Stable;
    ReachableInvariant(c, states, i, Lost(states, i));
    ReachableInvariant(c, states, j, Lost(states, j));
    if states[i].phases[p] == Succeeded {
      forall d | d in c.consumes[p] && d !in Lost(states, i)
        ensures Stable(c, states[j], d)
      {
        StableForever(c, true, states, i, j, d);
      }
    }
  }

  /** No reconciler is killed while galaxy runs for it, so no galaxy run outlives one. */
  ghost predicate NoOrphans(states: seq<State>) {
    forall m | 0 <= m < |states| :: states[m].orphans == multiset{}
  }

  /** So without such a kill the protocol holds for everything. */
  lemma LockProtocolWithoutKills(c: Config, states: seq<State>, i: nat, j: nat, p: nat)
    requires Run(c, true, states) && NoOrphans(states) && i <= j < |states| && p < |c.consumes|
    ensures states[i].phases[p] == Succeeded ==> forall d | d in c.consumes[p] :: Stable(c, states[j], d)
  {
    LockProtocol(c, states, i, j, p);
  }

  lemma NewOrphanIsConsumed(c: Config, locked: bool, s: State, t: State, d: Dep)
    requires WellFormed(c, s) && Moves(c, locked, s, t) && d in t.orphans && d !in s.orphans
    ensures exists p | 0 <= p < |c.consumes| :: d in c.consumes[p]
  {
    var p: nat :| Step(c, locked, s, t, p);
    assert s.phases[p].Installing? && d == c.consumes[p][s.phases[p].k];
  }

  lemma {:induction false} OrphansAreConsumed(c: Config, locked: bool, states: seq<State>, i: nat, d: Dep)
    requires Run(c, locked, states) && i < |states| && d in states[i].orphans
    ensures exists p | 0 <= p < |c.consumes| :: d in c.consumes[p]
    decreases i
  {
    hide Moves, WellFormed;
    if i > 0 {
      assert Moves(c, locked, states[i - 1], states[i - 1 + 1]);
      if d in states[i - 1].orphans {
        OrphansAreConsumed(c, locked, states, i - 1, d);
      } else {
        NewOrphanIsConsumed(c, locked, states[i - 1], states[i], d);
      }
    }
  }

  /** Whatever galaxy is at, some process consumes it, and at no earlier moment was it at its
      pin and left alone. */
  lemma GalaxyOnlyWhenNeeded(c: Config, states: seq<State>, i: nat, j: nat, d: Dep)
    requires Run(c, true, states) && i <= j < |states|
    ensures Busy(c, states[j], d) ==>
      !Stable(c, states[i], d) && exists p | 0 <= p < |c.consumes| :: d in c.consumes[p]
  {
    if Stable(c, states[i], d) {
      StableForever(c, true, states, i, j, d);
    }
    if d in states[j].orphans {
      OrphansAreConsumed(c, true, states, j, d);
    }
  }

  /** Two reconcilers of one dependency, with no lock: the second starts galaxy before the first
      has verified, and galaxy clears the way after the first has succeeded. */
  ghost function UnlockedRun(d: Dep, version: string): seq<State> {
    var none: Installed, some: Installed := map[], map[d := version];
    [ State(none, None, [Outside, Outside], multiset{}),
      State(none, Some(0), [Checking(0), Outside], multiset{}),
      State(none, Some(0), [Installing(0), Outside], multiset{}),
      State(none, Some(1), [Installing(0), Checking(0)], multiset{}),
      State(none, Some(1), [Installing(0), Installing(0)], multiset{}),
      State(some, Some(1), [Installing(0), Installing(0)], multiset{}),
      State(some, Some(1), [Verifying(0), Installing(0)], multiset{}),
      State(some, Some(1), [Checking(1), Installing(0)], multiset{}),
      State(some, None, [Succeeded, Installing(0)], multiset{}),
      State(none, None, [Succeeded, Installing(0)], multiset{})]
  }

  lemma UnlockedBegins(d: Dep, version: string, i: nat)
    requires i < 3
    ensures var c := Config([[d], [d]], map[d := version]);
      var s, t := UnlockedRun(d, version)[i], UnlockedRun(d, version)[i + 1];
      WellFormed(c, s) && WellFormed(c, t) && Moves(c, false, s, t)
  {
    var c := Config([[d], [d]], map[d := version]);
    var s, t := UnlockedRun(d, version)[i], UnlockedRun(d, version)[i + 1];
    assert Step(c, false, s, t, if i == 2 then 1 else 0);
  }

  lemma UnlockedGoesOn(d: Dep, version: string, i: nat)
    requires 3 <= i < 6
    ensures var c := Config([[d], [d]], map[d := version]);
      var s, t := UnlockedRun(d, version)[i], UnlockedRun(d, version)[i + 1];
      WellFormed(c, s) && WellFormed(c, t) && Moves(c, false, s, t)
  {
    var c := Config([[d], [d]], map[d := version]);
    var s, t := UnlockedRun(d, version)[i], UnlockedRun(d, version)[i + 1];
    assert Step(c, false, s, t, if i == 3 then 1 else 0);
  }

  lemma UnlockedEnds(d: Dep, version: string, i: nat)
    requires 6 <= i < 9
    ensures var c := Config([[d], [d]], map[d := version]);
      var s, t := UnlockedRun(d, version)[i], UnlockedRun(d, version)[i + 1];
      WellFormed(c, s) && WellFormed(c, t) && Moves(c, false, s, t)
  {
    var c := Config([[d], [d]], map[d := version]);
    var s, t := UnlockedRun(d, version)[i], UnlockedRun(d, version)[i + 1];
    assert Step(c, false, s, t, if i == 8 then 1 else 0);
  }

  /** Without the lock the protocol fails: a process that has succeeded loses its dependency. */
  lemma WithoutTheLock(d: Dep, version: string)
    ensures var c, states := Config([[d], [d]], map[d := version]), UnlockedRun(d, version);
      && Run(c, false, states)
      && states[9].phases[0] == Succeeded && d in c.consumes[0] && !AtPin(states[9].installed, c.pins, d)
  {
    hide Moves, WellFormed;
    var c, states := Config([[d], [d]], map[d := version]), UnlockedRun(d, version);
    forall i | 0 <= i < |states| - 1
      ensures WellFormed(c, states[i]) && Moves(c, false, states[i], states[i + 1])
    {
      if i < 3 {
        UnlockedBegins(d, version, i);
      } else if i < 6 {
        UnlockedGoesOn(d, version, i);
      } else {
        UnlockedEnds(d, version, i);
      }
    }
    UnlockedEnds(d, version, 8);
  }

  /** With the lock: the first reconciler is killed while galaxy runs; the second takes the lock,
      installs and succeeds; then the galaxy left behind clears the way once more. */
  ghost function OrphanRun(d: Dep, version: string): seq<State> {
    var none: Installed, some: Installed, left := map[], map[d := version], multiset{d};
    [ State(none, None, [Outside, Outside], multiset{}),
      State(none, Some(0), [Checking(0), Outside], multiset{}),
      State(none, Some(0), [Installing(0), Outside], multiset{}),
      State(none, None, [Failed, Outside], left),
      State(none, Some(1), [Failed, Checking(0)], left),
      State(none, Some(1), [Failed, Installing(0)], left),
      State(some, Some(1), [Failed, Installing(0)], left),
      State(some, Some(1), [Failed, Verifying(0)], left),
      State(some, Some(1), [Failed, Checking(1)], left),
      State(some, None, [Failed, Succeeded], left),
      State(none, None, [Failed, Succeeded], left)]
  }

  lemma OrphanRunBegins(d: Dep, version: string, i: nat)
    requires i < 3
    ensures var c := Config([[d], [d]], map[d := version]);
      var s, t := OrphanRun(d, version)[i], OrphanRun(d, version)[i + 1];
      WellFormed(c, s) && WellFormed(c, t) && Moves(c, true, s, t)
  {
    var c := Config([[d], [d]], map[d := version]);
    var s, t := OrphanRun(d, version)[i], OrphanRun(d, version)[i + 1];
    if i == 2 {
      assert t == Leave(s, 0, Failed).(orphans := s.orphans + multiset{d});
      assert Step(c, true, s, t, 0);
    } else {
      assert Step(c, true, s, t, 0);
    }
  }

  lemma OrphanRunGoesOn(d: Dep, version: string, i: nat)
    requires 3 <= i < 6
    ensures var c := Config([[d], [d]], map[d := version]);
      var s, t := OrphanRun(d, version)[i], OrphanRun(d, version)[i + 1];
      WellFormed(c, s) && WellFormed(c, t) && Moves(c, true, s, t)
  {
    var c := Config([[d], [d]], map[d := version]);
    var s, t := OrphanRun(d, version)[i], OrphanRun(d, version)[i + 1];
    assert Step(c, true, s, t, 1);
  }

  lemma OrphanRunEnds(d: Dep, version: string, i: nat)
    requires 6 <= i < 10
    ensures var c := Config([[d], [d]], map[d := version]);
      var s, t := OrphanRun(d, version)[i], OrphanRun(d, version)[i + 1];
      WellFormed(c, s) && WellFormed(c, t) && Moves(c, true, s, t)
  {
    var c := Config([[d], [d]], map[d := version]);
    var s, t := OrphanRun(d, version)[i], OrphanRun(d, version)[i + 1];
    if i < 9 {
      assert Step(c, true, s, t, 1);
    } else {
      assert OrphanStep(s, t, d);
    }
  }

  /** Even with the lock, a reconciler killed while galaxy runs can cost another one that has
      succeeded its dependency. */
  lemma OrphanBreaksTheLock(d: Dep, version: string)
    ensures var c, states := Config([[d], [d]], map[d := version]), OrphanRun(d, version);
      && Run(c, true, states)
      && states[10].phases[1] == Succeeded && d in c.consumes[1] && !AtPin(states[10].installed, c.pins, d)
  {
    hide Moves, WellFormed;
    var c, states := Config([[d], [d]], map[d := version]), OrphanRun(d, version);
    forall i | 0 <= i < |states| - 1
      ensures WellFormed(c, states[i]) && Moves(c, true, states[i], states[i + 1])
    {
      if i < 3 {
        OrphanRunBegins(d, version, i);
      } else if i < 6 {
        OrphanRunGoesOn(d, version, i);
      } else {
        OrphanRunEnds(d, version, i);
      }
    }
    OrphanRunEnds(d, version, 9);
  }
}
