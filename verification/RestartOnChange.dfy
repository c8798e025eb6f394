/** playbooks/filter_plugins/restart_on_change.py: the declarations of which service restarts
    when which synced file changes. */
module RestartOnChange {
  import opened Results
  import opened PosixPath

  /** The value under a service: a list of texts, or something else. */
  datatype Paths = NotAList | Paths(items: seq<string>)

  datatype Block = NoBlock | NotAMapping | Block(entries: seq<(string, Paths)>)

  /** One parsed Compose file; without a services mapping it has no services. */
  datatype Source = Source(dir: string, services: set<string>, block: Block)

  datatype Declaration = Declaration(stack: string, service: string, path: string)

  datatype Problem =
    | MustMap(stack: string)
    | UnknownService(stack: string, service: string)
    | MustList(stack: string, service: string)
    | NotSynced(stack: string, path: string)

  /** The plan's synced destinations, and the directory relative paths start from. */
  datatype Context = Context(synced: set<string>, cwd: string)

  // ----- What a declaration must satisfy, and what it says -----

  /** The services of a stack, over all its files. */
  function ServicesOf(sources: seq<Source>, dir: string): set<string> {
    if sources == [] then {}
    else
      var last := sources[|sources| - 1];
      ServicesOf(sources[..|sources| - 1], dir) + (if last.dir == dir then last.services else {})
  }

  function Resolved(dir: string, path: string): string {
    NormPath(PathJoin(dir, path))
  }

  predicate PathOk(ctx: Context, dir: string, path: string) {
    dir + "/" <= Resolved(dir, path) && Resolved(dir, path) in ctx.synced
  }

  predicate EntryOk(ctx: Context, services: set<string>, dir: string, entry: (string, Paths)) {
    entry.0 in services && entry.1.Paths?
    && (forall p | p in entry.1.items :: p != "" && PathOk(ctx, dir, p))
  }

  predicate SourceOk(ctx: Context, services: set<string>, source: Source) {
    match source.block
    case NoBlock => true
    case NotAMapping => false
    case Block(entries) => forall e | e in entries :: EntryOk(ctx, services, source.dir, e)
  }

  function DeclarationFor(ctx: Context, dir: string, service: string, path: string): Declaration {
    Declaration(BaseName(dir), service, RelPath(Resolved(dir, path), dir, ctx.cwd))
  }

  function OfPaths(ctx: Context, dir: string, service: string, paths: seq<string>): seq<Declaration> {
    seq(|paths|, i requires 0 <= i < |paths| => DeclarationFor(ctx, dir, service, paths[i]))
  }

  function OfEntries(ctx: Context, dir: string, entries: seq<(string, Paths)>): seq<Declaration> {
    if entries == [] then []
    else
      var (service, paths) := entries[|entries| - 1];
      OfEntries(ctx, dir, entries[..|entries| - 1])
      + (if paths.Paths? then OfPaths(ctx, dir, service, paths.items) else [])
  }

  function OfSource(ctx: Context, source: Source): seq<Declaration> {
    if source.block.Block? then OfEntries(ctx, source.dir, source.block.entries) else []
  }

  function OfSources(ctx: Context, sources: seq<Source>): seq<Declaration> {
    if sources == [] then []
    else OfSources(ctx, sources[..|sources| - 1]) + OfSource(ctx, sources[|sources| - 1])
  }

  ghost predicate Accepted(ctx: Context, sources: seq<Source>) {
    forall s | s in sources :: SourceOk(ctx, ServicesOf(sources, s.dir), s)
  }

  /** The complaint is true of some file. */
  ghost predicate Justified(ctx: Context, sources: seq<Source>, error: Problem) {
    exists s | s in sources && BaseName(s.dir) == error.stack :: JustifiedBy(ctx, ServicesOf(sources, s.dir), s, error)
  }

  ghost predicate JustifiedBy(ctx: Context, services: set<string>, s: Source, error: Problem) {
    match error
    case MustMap(_) => s.block.NotAMapping?
    case _ => s.block.Block? && exists e | e in s.block.entries :: JustifiedAt(ctx, services, s.dir, e, error)
  }

  ghost predicate JustifiedAt(ctx: Context, services: set<string>, dir: string, entry: (string, Paths), error: Problem)
  {
    match error
    case MustMap(_) => false
    case UnknownService(_, service) => service == entry.0 && service !in services
    case MustList(_, service) =>
      service == entry.0 && service in services && (entry.1.NotAList? || "" in entry.1.items)
    case NotSynced(_, path) => entry.1.Paths? && path in entry.1.items && !PathOk(ctx, dir, path)
  }

  // ----- The program's loops -----

  lemma ServicesSnoc(front: seq<Source>, last: Source, dir: string)
    ensures ServicesOf(front + [last], dir) == ServicesOf(front, dir) + (if last.dir == dir then last.services else {})
  {
    assert (front + [last])[..|front|] == front;
  }

  function At(services: map<string, set<string>>, dir: string): set<string> {
    if dir in services then services[dir] else {}
  }

  /** The map holds the services of each stack; a stack without an entry has none. */
  ghost predicate Collected(services: map<string, set<string>>, sources: seq<Source>) {
    && (forall dir :: At(services, dir) == ServicesOf(sources, dir))
    && (forall s | s in sources :: s.dir in services)
  }

  lemma CollectedSnoc(services: map<string, set<string>>, front: seq<Source>, last: Source)
    requires Collected(services, front)
    ensures Collected(services[last.dir := At(services, last.dir) + last.services], front + [last])
  {
    hide ServicesOf;
    var after := services[last.dir := At(services, last.dir) + last.services];
    forall dir
      ensures At(after, dir) == ServicesOf(front + [last], dir)
    {
      ServicesSnoc(front, last, dir);
      assert At(services, dir) == ServicesOf(front, dir);
    }
  }

  lemma NothingCollected()
    ensures Collected(map[], [])
  {
  }

  lemma CollectedAt(services: map<string, set<string>>, sources: seq<Source>)
    requires Collected(services, sources)
    ensures forall s | s in sources :: s.dir in services && services[s.dir] == ServicesOf(sources, s.dir)
  {
    hide ServicesOf;
    forall s | s in sources
      ensures s.dir in services && services[s.dir] == ServicesOf(sources, s.dir)
    {
      assert At(services, s.dir) == ServicesOf(sources, s.dir);
    }
  }

  method CollectServices(sources: seq<Source>) returns (services: map<string, set<string>>)
    ensures forall s | s in sources :: s.dir in services && services[s.dir] == ServicesOf(sources, s.dir)
  {
    hide Collected, ServicesOf;
    services := map[];
    NothingCollected();
    for i := 0 to |sources|
      invariant Collected(services, sources[..i])
    {
      var s := sources[i];
      CollectedSnoc(services, sources[..i], s);
      assert sources[..i + 1] == sources[..i] + [s];
      services := services[s.dir := At(services, s.dir) + s.services];
    }
    assert sources[..|sources|] == sources;
    CollectedAt(services, sources);
  }

  method DeclareEntry(ctx: Context, services: set<string>, dir: string, entry: (string, Paths))
    returns (r: Result<seq<Declaration>, Problem>)
    ensures r.Ok? <==> EntryOk(ctx, services, dir, entry)
    ensures r.Ok? ==> r.value == OfPaths(ctx, dir, entry.0, entry.1.items)
    ensures r.Err? ==> JustifiedAt(ctx, services, dir, entry, r.error) && r.error.stack == BaseName(dir)
  {
    hide PathOk, DeclarationFor, BaseName;
    var (service, paths) := entry;
    var stack := BaseName(dir);
    if service !in services {
      return Err(UnknownService(stack, service));
    }
    if paths.NotAList? || "" in paths.items {
      return Err(MustList(stack, service));
    }
    var declarations := [];
    for i := 0 to |paths.items|
      invariant forall k | 0 <= k < i :: PathOk(ctx, dir, paths.items[k])
      invariant declarations == OfPaths(ctx, dir, service, paths.items[..i])
    {
      var path := paths.items[i];
      if !PathOk(ctx, dir, path) {
        assert path in paths.items;
        return Err(NotSynced(stack, path));
      }
      declarations := declarations + [DeclarationFor(ctx, dir, service, path)];
    }
    assert paths.items[..|paths.items|] == paths.items;
    return Ok(declarations);
  }

  lemma NoEntries(ctx: Context, dir: string)
    ensures OfEntries(ctx, dir, []) == []
  {
  }

  lemma EntriesSnoc(ctx: Context, services: set<string>, dir: string, front: seq<(string, Paths)>,
      last: (string, Paths))
    requires EntryOk(ctx, services, dir, last)
    ensures last.1.Paths? && OfEntries(ctx, dir, front + [last])
      == OfEntries(ctx, dir, front) + OfPaths(ctx, dir, last.0, last.1.items)
  {
    hide PathOk, OfPaths;
    assert (front + [last])[..|front|] == front;
  }

  lemma NotAboutTheBlock(ctx: Context, services: set<string>, dir: string, entry: (string, Paths), error: Problem)
    requires JustifiedAt(ctx, services, dir, entry, error)
    ensures !error.MustMap?
  {
  }

  method DeclareSource(ctx: Context, services: set<string>, source: Source)
    returns (r: Result<seq<Declaration>, Problem>)
    ensures r.Ok? <==> SourceOk(ctx, services, source)
    ensures r.Ok? ==> r.value == OfSource(ctx, source)
    ensures r.Err? ==> JustifiedBy(ctx, services, source, r.error) && r.error.stack == BaseName(source.dir)
  {
    hide JustifiedAt, EntryOk, OfPaths, OfEntries, BaseName;
    match source.block
    case NoBlock => return Ok([]);
    case NotAMapping => return Err(MustMap(BaseName(source.dir)));
    case Block(entries) =>
      var declarations := [];
      NoEntries(ctx, source.dir);
      for i := 0 to |entries|
        invariant forall k | 0 <= k < i :: EntryOk(ctx, services, source.dir, entries[k])
        invariant declarations == OfEntries(ctx, source.dir, entries[..i])
      {
        var one := DeclareEntry(ctx, services, source.dir, entries[i]);
        if one.Err? {
          assert entries[i] in entries && !one.error.MustMap? by {
            NotAboutTheBlock(ctx, services, source.dir, entries[i], one.error);
          }
          return Err(one.error);
        }
        assert entries[..i + 1] == entries[..i] + [entries[i]];
        EntriesSnoc(ctx, services, source.dir, entries[..i], entries[i]);
        declarations := declarations + one.value;
      }
      assert entries[..|entries|] == entries;
      return Ok(declarations);
  }

  /** `restart_on_change_declarations`. */
  method Declare(ctx: Context, sources: seq<Source>) returns (r: Result<seq<Declaration>, Problem>)
    ensures r.Ok? <==> Accepted(ctx, sources)
    // Every declared path has its declaration, in order, and there are no others.
    ensures r.Ok? ==> r.value == OfSources(ctx, sources) && InOrder(ctx, sources, r.value)
    // Every complaint is true.
    ensures r.Err? ==> Justified(ctx, sources, r.error)
  {
    hide SourceOk, JustifiedBy, InOrder, OfSource;
    var services := CollectServices(sources);
    var declarations := [];
    for i := 0 to |sources|
      invariant forall k | 0 <= k < i :: SourceOk(ctx, ServicesOf(sources, sources[k].dir), sources[k])
      invariant declarations == OfSources(ctx, sources[..i])
    {
      assert sources[i] in sources;
      var one := DeclareSource(ctx, services[sources[i].dir], sources[i]);
      if one.Err? {
        return Err(one.error);
      }
      assert sources[..i + 1][..i] == sources[..i];
      declarations := declarations + one.value;
    }
    assert sources[..|sources|] == sources;
    if Accepted(ctx, sources) {
      DeclaredInOrder(ctx, sources);
    }
    return Ok(declarations);
  }

  // ----- Every declared path has its declaration -----

  /** How many paths are declared. */
  function PathsIn(entries: seq<(string, Paths)>): nat {
    if entries == [] then 0
    else
      var (_, paths) := entries[|entries| - 1];
      PathsIn(entries[..|entries| - 1]) + (if paths.Paths? then |paths.items| else 0)
  }

  function PathsOf(sources: seq<Source>): nat {
    if sources == [] then 0
    else
      var block := sources[|sources| - 1].block;
      PathsOf(sources[..|sources| - 1]) + (if block.Block? then PathsIn(block.entries) else 0)
  }

  /** The declaration says that this service of this stack restarts when this path changes. */
  ghost predicate Declares(ctx: Context, d: Declaration, dir: string, service: string, path: string) {
    && d.stack == BaseName(dir) && d.service == service
    && d.path == RelPath(NormPath(PathJoin(dir, path)), dir, ctx.cwd)
    && (StackDir(dir) ==> PathJoin(dir, d.path) == NormPath(PathJoin(dir, path)))
  }

  /** Path `i` of entry `m` of file `n` has its declaration behind those of all paths before it. */
  ghost predicate DeclaredAt(ctx: Context, sources: seq<Source>, declarations: seq<Declaration>, n: nat, m: nat, i: nat)
    requires n < |sources| && sources[n].block.Block? && m < |sources[n].block.entries|
    requires sources[n].block.entries[m].1.Paths? && i < |sources[n].block.entries[m].1.items|
  {
    var s, (service, paths) := sources[n], sources[n].block.entries[m];
    var k := PathsOf(sources[..n]) + PathsIn(s.block.entries[..m]) + i;
    k < |declarations| && Declares(ctx, declarations[k], s.dir, service, paths.items[i])
  }

  ghost predicate InOrder(ctx: Context, sources: seq<Source>, declarations: seq<Declaration>) {
    && |declarations| == PathsOf(sources)
    && forall n: nat, m: nat, i: nat
         | n < |sources| && sources[n].block.Block? && m < |sources[n].block.entries|
           && sources[n].block.entries[m].1.Paths? && i < |sources[n].block.entries[m].1.items| ::
         DeclaredAt(ctx, sources, declarations, n, m, i)
  }

  lemma {:induction false} EntriesCounted(ctx: Context, dir: string, entries: seq<(string, Paths)>)
    ensures |OfEntries(ctx, dir, entries)| == PathsIn(entries)
    decreases |entries|
  {
    hide DeclarationFor;
    if entries != [] {
      EntriesCounted(ctx, dir, entries[..|entries| - 1]);
    }
  }

  lemma {:induction false} SourcesCounted(ctx: Context, sources: seq<Source>)
    ensures |OfSources(ctx, sources)| == PathsOf(sources)
    decreases |sources|
  {
    hide OfEntries, PathsIn;
    if sources != [] {
      var s := sources[|sources| - 1];
      SourcesCounted(ctx, sources[..|sources| - 1]);
      if s.block.Block? {
        EntriesCounted(ctx, s.dir, s.block.entries);
      }
    }
  }

  lemma {:induction false} EntryAt(ctx: Context, dir: string, entries: seq<(string, Paths)>, m: nat, i: nat)
    requires m < |entries| && entries[m].1.Paths? && i < |entries[m].1.items|
    ensures var k := PathsIn(entries[..m]) + i;
      k < |OfEntries(ctx, dir, entries)|
      && OfEntries(ctx, dir, entries)[k] == DeclarationFor(ctx, dir, entries[m].0, entries[m].1.items[i])
    decreases |entries|
  {
    hide DeclarationFor;
    var front := entries[..|entries| - 1];
    EntriesCounted(ctx, dir, front);
    if m < |entries| - 1 {
      assert front[..m] == entries[..m];
      EntryAt(ctx, dir, front, m, i);
    }
  }

  lemma {:induction false} SourceAt(ctx: Context, sources: seq<Source>, n: nat, j: nat)
    requires n < |sources| && j < |OfSource(ctx, sources[n])|
    ensures var k := PathsOf(sources[..n]) + j;
      k < |OfSources(ctx, sources)| && OfSources(ctx, sources)[k] == OfSource(ctx, sources[n])[j]
    decreases |sources|
  {
    hide OfSource, PathsIn;
    var front := sources[..|sources| - 1];
    SourcesCounted(ctx, front);
    if n < |sources| - 1 {
      assert front[..n] == sources[..n];
      SourceAt(ctx, front, n, j);
    }
  }

  lemma DeclaresIts(ctx: Context, services: set<string>, dir: string, entry: (string, Paths), i: nat)
    requires EntryOk(ctx, services, dir, entry) && i < |entry.1.items|
    ensures Declares(ctx, DeclarationFor(ctx, dir, entry.0, entry.1.items[i]), dir, entry.0, entry.1.items[i])
  {
    hide NormPath, RelPath;
    var path := entry.1.items[i];
    assert path in entry.1.items && PathOk(ctx, dir, path);
    if StackDir(dir) {
      assert IsAbsolute(PathJoin(dir, path)) by {
        assert !IsAbsolute(path) ==> PathJoin(dir, path)[0] == dir[0];
      }
      NormalTwice(PathJoin(dir, path));
      RoundTrip(dir, Resolved(dir, path), ctx.cwd);
    }
  }

  /** As many declarations as there are declared paths, in their order. */
  lemma DeclaredInOrder(ctx: Context, sources: seq<Source>)
    requires Accepted(ctx, sources)
    ensures InOrder(ctx, sources, OfSources(ctx, sources))
  {
    hide PathsOf, PathsIn, OfSources, OfEntries, Declares, DeclarationFor, EntryOk;
    SourcesCounted(ctx, sources);
    forall n: nat, m: nat, i: nat
      | n < |sources| && sources[n].block.Block? && m < |sources[n].block.entries|
        && sources[n].block.entries[m].1.Paths? && i < |sources[n].block.entries[m].1.items|
      ensures DeclaredAt(ctx, sources, OfSources(ctx, sources), n, m, i)
    {
      var s, entry := sources[n], sources[n].block.entries[m];
      assert s in sources && entry in s.block.entries;
      EntryAt(ctx, s.dir, s.block.entries, m, i);
      SourceAt(ctx, sources, n, PathsIn(s.block.entries[..m]) + i);
      DeclaresIts(ctx, ServicesOf(sources, s.dir), s.dir, entry, i);
    }
  }

  // ----- Every declaration stays inside its stack -----

  /** An absolute directory, other than the root. */
  predicate StackDir(dir: string) {
    IsAbsolute(dir) && dir != "/"
  }

  /** The declaration names a service of the stack and a file inside it that is synced. */
  ghost predicate Sound(ctx: Context, sources: seq<Source>, d: Declaration) {
    exists s | s in sources ::
      && d.stack == BaseName(s.dir) && d.service in ServicesOf(sources, s.dir)
      && ".." !in Split(d.path) && !IsAbsolute(d.path)
      && PathJoin(s.dir, d.path) in ctx.synced && NormPath(PathJoin(s.dir, d.path)) == PathJoin(s.dir, d.path)
  }

  lemma NormalTwice(p: string)
    requires IsAbsolute(p)
    ensures IsAbsolute(NormPath(p)) && NormPath(NormPath(p)) == NormPath(p)
  {
    var slashes, comps := NormAbsolute(p);
    RenderedIsNormal(slashes, comps);
  }

  lemma DeclarationIsSound(ctx: Context, sources: seq<Source>, s: Source, service: string, path: string)
    requires s in sources && StackDir(s.dir) && service in ServicesOf(sources, s.dir) && PathOk(ctx, s.dir, path)
    ensures Sound(ctx, sources, DeclarationFor(ctx, s.dir, service, path))
  {
    hide NormPath, RelPath, Split;
    var joined := PathJoin(s.dir, path);
    assert IsAbsolute(joined) by {
      assert !IsAbsolute(path) ==> joined[0] == s.dir[0];
    }
    NormalTwice(joined);
    RoundTrip(s.dir, Resolved(s.dir, path), ctx.cwd);
  }

  lemma {:induction false} EntriesAreSound(ctx: Context, sources: seq<Source>, s: Source, entries: seq<(string, Paths)>)
    requires s in sources && StackDir(s.dir)
    requires forall e | e in entries :: EntryOk(ctx, ServicesOf(sources, s.dir), s.dir, e)
    ensures forall d | d in OfEntries(ctx, s.dir, entries) :: Sound(ctx, sources, d)
    decreases |entries|
  {
    hide Sound, StackDir, PathOk, DeclarationFor, EntryOk;
    if entries != [] {
      var n := |entries| - 1;
      EntriesAreSound(ctx, sources, s, entries[..n]);
      assert entries[n] in entries;
      EntryIsSound(ctx, sources, s, entries[n]);
    }
  }

  lemma EntryIsSound(ctx: Context, sources: seq<Source>, s: Source, entry: (string, Paths))
    requires s in sources && StackDir(s.dir) && EntryOk(ctx, ServicesOf(sources, s.dir), s.dir, entry)
    ensures entry.1.Paths? && forall d | d in OfPaths(ctx, s.dir, entry.0, entry.1.items) :: Sound(ctx, sources, d)
  {
    hide Sound, StackDir, PathOk, DeclarationFor;
    var paths := entry.1.items;
    forall d | d in OfPaths(ctx, s.dir, entry.0, paths)
      ensures Sound(ctx, sources, d)
    {
      var i :| 0 <= i < |paths| && d == DeclarationFor(ctx, s.dir, entry.0, paths[i]);
      assert paths[i] in paths;
      DeclarationIsSound(ctx, sources, s, entry.0, paths[i]);
    }
  }

  /** Every declaration returned for stacks in absolute directories stays inside its stack: it
      never goes up, and joined to the stack's directory it is a synced file. */
  lemma {:induction false} DeclarationsAreSound(ctx: Context, sources: seq<Source>, n: nat)
    requires Accepted(ctx, sources) && n <= |sources| && forall s | s in sources :: StackDir(s.dir)
    ensures forall d | d in OfSources(ctx, sources[..n]) :: Sound(ctx, sources, d)
    decreases n
  {
    hide Sound, StackDir, SourceOk;
    if n > 0 {
      DeclarationsAreSound(ctx, sources, n - 1);
      var s := sources[n - 1];
      assert s in sources && sources[..n][..n - 1] == sources[..n - 1];
      SourceIsSound(ctx, sources, s);
    }
  }

  lemma SourceIsSound(ctx: Context, sources: seq<Source>, s: Source)
    requires s in sources && StackDir(s.dir) && SourceOk(ctx, ServicesOf(sources, s.dir), s)
    ensures forall d | d in OfSource(ctx, s) :: Sound(ctx, sources, d)
  {
    if s.block.Block? {
      EntriesAreSound(ctx, sources, s, s.block.entries);
    }
  }

  // ----- The order of the sources does not matter -----

  lemma {:induction false} ServiceMember(sources: seq<Source>, dir: string, service: string)
    ensures service in ServicesOf(sources, dir) <==> exists s | s in sources :: s.dir == dir && service in s.services
    decreases |sources|
  {
    if sources != [] {
      var front, last := sources[..|sources| - 1], sources[|sources| - 1];
      assert sources == front + [last];
      ServiceMember(front, dir, service);
    }
  }

  lemma SameMembers<T>(a: seq<T>, b: seq<T>)
    requires multiset(a) == multiset(b)
    ensures forall x :: x in a <==> x in b
  {
    forall x
      ensures x in a <==> x in b
    {
      assert x in a <==> x in multiset(a);
      assert x in b <==> x in multiset(b);
    }
  }

  lemma SameServices(a: seq<Source>, b: seq<Source>, dir: string)
    requires multiset(a) == multiset(b)
    ensures ServicesOf(a, dir) == ServicesOf(b, dir)
  {
    SameMembers(a, b);
    forall service
      ensures service in ServicesOf(a, dir) <==> service in ServicesOf(b, dir)
    {
      ServiceMember(a, dir, service);
      ServiceMember(b, dir, service);
    }
  }

  lemma {:induction false} OfSourcesConcat(ctx: Context, a: seq<Source>, b: seq<Source>)
    ensures OfSources(ctx, a + b) == OfSources(ctx, a) + OfSources(ctx, b)
    decreases |b|
  {
    if b == [] {
      assert a + b == a;
    } else {
      assert (a + b)[..|a + b| - 1] == a + b[..|b| - 1];
      OfSourcesConcat(ctx, a, b[..|b| - 1]);
    }
  }

  lemma OfOneSource(ctx: Context, s: Source)
    ensures OfSources(ctx, [s]) == OfSource(ctx, s)
  {
    assert [s][..0] == [];
  }

  /** One source's declarations, wherever it stands. */
  lemma OneOfSources(ctx: Context, left: seq<Source>, x: Source, right: seq<Source>)
    ensures multiset(OfSources(ctx, left + [x] + right))
      == multiset(OfSources(ctx, left + right)) + multiset(OfSource(ctx, x))
  {
    hide OfSource, OfSources;
    OfOneSource(ctx, x);
    OfSourcesConcat(ctx, left, [x]);
    OfSourcesConcat(ctx, left + [x], right);
    OfSourcesConcat(ctx, left, right);
  }

  /** The last of one list is somewhere in any permutation; without it the rests are permutations. */
  lemma TakeOut<T>(a: seq<T>, b: seq<T>) returns (i: nat)
    requires a != [] && multiset(a) == multiset(b)
    ensures i < |b| && b[i] == a[|a| - 1] && b == b[..i] + [b[i]] + b[i + 1..]
    ensures multiset(a[..|a| - 1]) == multiset(b[..i] + b[i + 1..])
  {
    var front, x := a[..|a| - 1], a[|a| - 1];
    assert a == front + [x];
    Without(front, x, []);
    assert front + [x] + [] == a && front + [] == front;
    assert x in multiset(b);
    i :| 0 <= i < |b| && b[i] == x;
    Without(b[..i], x, b[i + 1..]);
    assert b == b[..i] + [x] + b[i + 1..];
  }

  lemma Without<T>(left: seq<T>, x: T, right: seq<T>)
    ensures multiset(left + right) == multiset(left + [x] + right) - multiset{x}
  {
    assert multiset(left + [x] + right) == multiset(left) + multiset{x} + multiset(right);
  }

  lemma {:induction false} SameDeclarations(ctx: Context, a: seq<Source>, b: seq<Source>)
    requires multiset(a) == multiset(b)
    ensures multiset(OfSources(ctx, a)) == multiset(OfSources(ctx, b))
    decreases |a|
  {
    hide OfSource, OfSources;
    if a == [] {
      assert |multiset(a)| == |a| && |multiset(b)| == |b|;
      assert b == [];
    } else {
      var front, x := a[..|a| - 1], a[|a| - 1];
      var i := TakeOut(a, b);
      SameDeclarations(ctx, front, b[..i] + b[i + 1..]);
      OneOfSources(ctx, b[..i], x, b[i + 1..]);
      OneOfSources(ctx, front, x, []);
      assert a == front + [x] + [] && front + [] == front;
    }
  }

  /** Permuting the sources changes neither whether they are accepted nor what is declared. */
  lemma OrderDoesNotMatter(ctx: Context, a: seq<Source>, b: seq<Source>)
    requires multiset(a) == multiset(b)
    ensures Accepted(ctx, a) <==> Accepted(ctx, b)
    ensures multiset(OfSources(ctx, a)) == multiset(OfSources(ctx, b))
  {
    hide SourceOk, ServicesOf;
    SameMembers(a, b);
    forall s: Source
      ensures ServicesOf(a, s.dir) == ServicesOf(b, s.dir)
    {
      SameServices(a, b, s.dir);
    }
    SameDeclarations(ctx, a, b);
  }
}
