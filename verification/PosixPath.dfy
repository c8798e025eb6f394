/** The parts of Python's `posixpath` that playbooks/filter_plugins/restart_on_change.py uses:
    join, normpath, relpath and basename. */
module PosixPath {

  /** `s.split("/")`. */
  function Split(s: string): (r: seq<string>)
    ensures r != []
  {
    if s == "" then [""]
    else
      var rest := Split(s[1..]);
      if s[0] == '/' then [""] + rest else [[s[0]] + rest[0]] + rest[1..]
  }

  /** `"/".join(parts)`. */
  function JoinParts(parts: seq<string>): string {
    if |parts| == 0 then ""
    else if |parts| == 1 then parts[0]
    else parts[0] + "/" + JoinParts(parts[1..])
  }

  predicate IsAbsolute(p: string) {
    p != "" && p[0] == '/'
  }

  function PathJoin(a: string, b: string): string {
    if IsAbsolute(b) then b
    else if a == "" || a[|a| - 1] == '/' then a + b
    else a + "/" + b
  }

  /** One or two leading slashes are kept, three or more count as one. */
  function Slashes(p: string): string {
    if !IsAbsolute(p) then ""
    else if "//" <= p && !("///" <= p) then "//"
    else "/"
  }

  /** The components that are left when empty ones and "." are dropped and ".." goes up. */
  function Reduce(comps: seq<string>, absolute: bool): seq<string> {
    if comps == [] then []
    else
      var before, comp := Reduce(comps[..|comps| - 1], absolute), comps[|comps| - 1];
      if comp == "" || comp == "." then before
      else if comp != ".." || (!absolute && before == []) || (before != [] && before[|before| - 1] == "..")
      then before + [comp]
      else if before != [] then before[..|before| - 1]
      else before
  }

  function NormPath(p: string): string {
    if p == "" then "."
    else
      var r := Slashes(p) + JoinParts(Reduce(Split(p), IsAbsolute(p)));
      if r == "" then "." else r
  }

  function AbsPath(p: string, cwd: string): string {
    NormPath(if IsAbsolute(p) then p else PathJoin(cwd, p))
  }

  function NonEmpty(parts: seq<string>): seq<string> {
    if parts == [] then []
    else NonEmpty(parts[..|parts| - 1]) + (if parts[|parts| - 1] == "" then [] else [parts[|parts| - 1]])
  }

  function CommonPrefix(a: seq<string>, b: seq<string>): nat {
    if a != [] && b != [] && a[0] == b[0] then 1 + CommonPrefix(a[1..], b[1..]) else 0
  }

  function Ups(n: nat): seq<string> {
    seq(n, _ => "..")
  }

  function RelPath(path: string, start: string, cwd: string): string {
    var from, to := NonEmpty(Split(AbsPath(start, cwd))), NonEmpty(Split(AbsPath(path, cwd)));
    var i := CommonPrefix(from, to);
    var rel := (if |from| >= i then Ups(|from| - i) else []) + (if i <= |to| then to[i..] else []);
    if rel == [] then "." else JoinParts(rel)
  }

  function BaseName(p: string): string {
    var parts := Split(p);
    parts[|parts| - 1]
  }

  // ----- Splitting and joining -----

  predicate Plain(part: string) {
    '/' !in part
  }

  /** A component a normalised absolute path may have. */
  predicate Clean(part: string) {
    Plain(part) && part != "" && part != "." && part != ".."
  }

  ghost predicate AllClean(parts: seq<string>) {
    forall i | 0 <= i < |parts| :: Clean(parts[i])
  }

  lemma {:induction false} SplitIsPlain(s: string)
    ensures forall i | 0 <= i < |Split(s)| :: Plain(Split(s)[i])
    decreases |s|
  {
    if s != "" {
      SplitIsPlain(s[1..]);
    }
  }

  lemma {:induction false} SplitPlain(s: string)
    requires Plain(s)
    ensures Split(s) == [s]
    decreases |s|
  {
    if s != "" {
      SplitPlain(s[1..]);
      assert [s[0]] + s[1..] == s;
    }
  }

  lemma {:induction false} SplitAtSlash(a: string, b: string)
    ensures Split(a + "/" + b) == Split(a) + Split(b)
    decreases |a|
  {
    if a == "" {
      assert ("/" + b)[1..] == b;
      assert a + "/" + b == "/" + b;
    } else {
      hide Split, Onto;
      var all := a + "/" + b;
      assert all[1..] == a[1..] + "/" + b && all[0] == a[0];
      SplitAtSlash(a[1..], b);
      SplitHead(a);
      SplitHead(all);
      OntoConcat(a[0], Split(a[1..]), Split(b));
    }
  }

  /** One more character in front of split parts. */
  function Onto(c: char, parts: seq<string>): seq<string>
    requires parts != []
  {
    if c == '/' then [""] + parts else [[c] + parts[0]] + parts[1..]
  }

  lemma OntoConcat(c: char, parts: seq<string>, more: seq<string>)
    requires parts != []
    ensures Onto(c, parts + more) == Onto(c, parts) + more
  {
    assert (parts + more)[1..] == parts[1..] + more;
  }

  lemma SplitHead(s: string)
    requires s != ""
    ensures Split(s) == Onto(s[0], Split(s[1..]))
  {
  }

  lemma {:induction false} SplitJoined(parts: seq<string>)
    requires parts != [] && forall i | 0 <= i < |parts| :: Plain(parts[i])
    ensures Split(JoinParts(parts)) == parts
    decreases |parts|
  {
    SplitPlain(parts[0]);
    if |parts| > 1 {
      SplitJoined(parts[1..]);
      SplitAtSlash(parts[0], JoinParts(parts[1..]));
    }
  }

  lemma {:induction false} JoinConcat(a: seq<string>, b: seq<string>)
    requires a != [] && b != []
    ensures JoinParts(a + b) == JoinParts(a) + "/" + JoinParts(b)
    decreases |a|
  {
    if |a| == 1 {
      assert (a + b)[1..] == b;
    } else {
      assert (a + b)[1..] == a[1..] + b;
      JoinConcat(a[1..], b);
      assert JoinParts(a) + "/" + JoinParts(b) == a[0] + "/" + (JoinParts(a[1..]) + "/" + JoinParts(b));
    }
  }

  lemma {:induction false} NonEmptyConcat(a: seq<string>, b: seq<string>)
    ensures NonEmpty(a + b) == NonEmpty(a) + NonEmpty(b)
    decreases |b|
  {
    if b == [] {
      assert a + b == a;
    } else {
      assert (a + b)[..|a + b| - 1] == a + b[..|b| - 1];
      NonEmptyConcat(a, b[..|b| - 1]);
    }
  }

  lemma {:induction false} NonEmptyClean(parts: seq<string>)
    requires AllClean(parts)
    ensures NonEmpty(parts) == parts
    decreases |parts|
  {
    if parts != [] {
      NonEmptyClean(parts[..|parts| - 1]);
    }
  }

  // ----- Normal form of absolute paths -----

  /** Going up never leaves an absolute path, so only clean components remain. */
  lemma {:induction false} ReduceIsClean(comps: seq<string>)
    requires forall i | 0 <= i < |comps| :: Plain(comps[i])
    ensures AllClean(Reduce(comps, true))
    decreases |comps|
  {
    if comps != [] {
      ReduceIsClean(comps[..|comps| - 1]);
    }
  }

  /** The absolute path with these leading slashes and components. */
  function Render(slashes: string, comps: seq<string>): string {
    slashes + JoinParts(comps)
  }

  predicate IsSlashes(s: string) {
    s == "/" || s == "//"
  }

  /** What `normpath` makes of an absolute path. */
  lemma NormAbsolute(p: string) returns (slashes: string, comps: seq<string>)
    requires IsAbsolute(p)
    ensures IsSlashes(slashes) && AllClean(comps) && NormPath(p) == Render(slashes, comps)
  {
    SplitIsPlain(p);
    slashes, comps := Slashes(p), Reduce(Split(p), true);
    ReduceIsClean(Split(p));
  }

  lemma JoinStart(comps: seq<string>)
    requires AllClean(comps)
    ensures comps != [] ==> JoinParts(comps) != "" && JoinParts(comps)[0] == comps[0][0] && comps[0][0] != '/'
    ensures comps == [] ==> JoinParts(comps) == ""
  {
    if comps != [] {
      assert Clean(comps[0]);
      assert comps[0][0] in comps[0];
    }
  }

  /** The components can be read back off the path. */
  lemma RenderedComponents(slashes: string, comps: seq<string>)
    requires IsSlashes(slashes) && AllClean(comps)
    ensures NonEmpty(Split(Render(slashes, comps))) == comps
  {
    hide Split, NonEmpty, JoinParts;
    var body := JoinParts(comps);
    BodyComponents(comps);
    OneSlash(body);
    if slashes == "//" {
      OneSlash("/" + body);
      assert "//" + body == "/" + ("/" + body);
    }
  }

  lemma BodyComponents(comps: seq<string>)
    requires AllClean(comps)
    ensures NonEmpty(Split(JoinParts(comps))) == comps
  {
    if comps == [] {
      assert [""][..0] == [];
    } else {
      SplitJoined(comps);
      NonEmptyClean(comps);
    }
  }

  /** A leading slash adds no component. */
  lemma OneSlash(p: string)
    ensures NonEmpty(Split("/" + p)) == NonEmpty(Split(p))
  {
    SplitAtSlash("", p);
    assert "" + "/" + p == "/" + p;
    assert [""][..0] == [];
    NonEmptyConcat([""], Split(p));
  }

  lemma {:induction false} ReduceClean(comps: seq<string>, clean: seq<string>)
    requires NonEmpty(comps) == clean && AllClean(clean)
    ensures Reduce(comps, true) == clean
    decreases |comps|
  {
    if comps != [] {
      var front, last := comps[..|comps| - 1], comps[|comps| - 1];
      if last == "" {
        ReduceClean(front, clean);
      } else {
        assert clean[..|clean| - 1] == NonEmpty(front) && clean[|clean| - 1] == last;
        ReduceClean(front, clean[..|clean| - 1]);
      }
    }
  }

  /** A rendered path is its own normal form. */
  lemma RenderedIsNormal(slashes: string, comps: seq<string>)
    requires IsSlashes(slashes) && AllClean(comps)
    ensures NormPath(Render(slashes, comps)) == Render(slashes, comps)
  {
    hide Split, Reduce, NonEmpty, JoinParts, Slashes;
    var p := Render(slashes, comps);
    RenderedComponents(slashes, comps);
    ReduceClean(Split(p), comps);
    JoinStart(comps);
    SlashesKept(slashes, JoinParts(comps));
  }

  lemma SlashesKept(slashes: string, body: string)
    requires IsSlashes(slashes) && (body != "" ==> body[0] != '/')
    ensures IsAbsolute(slashes + body) && Slashes(slashes + body) == slashes
  {
    var p := slashes + body;
    assert forall i | 0 <= i < |slashes| :: p[i] == '/';
    assert |p| > |slashes| ==> p[|slashes|] == body[0];
  }

  /** How components are reduced depends on those before only through what is left of them. */
  lemma {:induction false} ReduceFrom(a: seq<string>, b: seq<string>, more: seq<string>)
    requires Reduce(a, true) == Reduce(b, true)
    ensures Reduce(a + more, true) == Reduce(b + more, true)
    decreases |more|
  {
    hide Reduce;
    if more == [] {
      assert a + more == a && b + more == b;
    } else {
      var n := |more| - 1;
      ReduceFrom(a, b, more[..n]);
      assert a + more == a + more[..n] + [more[n]] && b + more == b + more[..n] + [more[n]];
      LastReduced(a + more[..n], b + more[..n], more[n]);
    }
  }

  lemma LastReduced(a: seq<string>, b: seq<string>, comp: string)
    requires Reduce(a, true) == Reduce(b, true)
    ensures Reduce(a + [comp], true) == Reduce(b + [comp], true)
  {
    assert (a + [comp])[..|a|] == a && (b + [comp])[..|b|] == b;
  }

  lemma ReduceDetour(comps: seq<string>, x: string)
    requires Clean(x)
    ensures Reduce(comps + [x] + [".."], true) == Reduce(comps, true)
    ensures Reduce(comps + ["."], true) == Reduce(comps + [""], true) == Reduce(comps, true)
  {
    var there := comps + [x];
    assert there[..|there| - 1] == comps;
    assert Reduce(there, true) == Reduce(comps, true) + [x];
    assert (there + [".."])[..|there|] == there;
    assert (comps + ["."])[..|comps|] == comps && (comps + [""])[..|comps|] == comps;
  }

  lemma OrdinarySlashes(a: string, u: string)
    requires IsAbsolute(a) && |a| >= 2 && a[1] != '/'
    ensures IsAbsolute(a + u) && Slashes(a + u) == "/"
  {
    assert (a + u)[0] == a[0] && (a + u)[1] == a[1];
  }

  lemma SameReduction(a: string, u: string, v: string)
    requires IsAbsolute(a) && |a| >= 2 && a[1] != '/'
    requires Reduce(Split(a + u), true) == Reduce(Split(a + v), true)
    ensures NormPath(a + u) == NormPath(a + v)
  {
    hide Reduce, Split, JoinParts, Slashes;
    OrdinarySlashes(a, u);
    OrdinarySlashes(a, v);
  }

  /** A component and the ".." after it cancel out; a "." and an empty component say nothing.
      With normal forms left as they are, this says what `normpath` makes of a path. */
  lemma NormPathLaws(a: string, x: string, b: string)
    requires IsAbsolute(a) && |a| >= 2 && a[1] != '/' && Clean(x)
    ensures NormPath(a + "/" + x + "/../" + b) == NormPath(a + "/" + b)
    ensures NormPath(a + "/./" + b) == NormPath(a + "/" + b)
    ensures NormPath(a + "//" + b) == NormPath(a + "/" + b)
  {
    hide Reduce, Split, NormPath, Slashes;
    var at, rest := Split(a), Split(b);
    SplitAtSlash(a, b);
    Detour(a, x, b);
    Dotted(a, ".", b);
    Dotted(a, "", b);
    ReduceDetour(at, x);
    ReduceFrom(at + [x] + [".."], at, rest);
    ReduceFrom(at + ["."], at, rest);
    ReduceFrom(at + [""], at, rest);
    assert a + "/" + x + "/../" + b == a + ("/" + x + "/../" + b) && a + "/" + b == a + ("/" + b);
    assert a + "/./" + b == a + ("/./" + b) && a + "//" + b == a + ("//" + b);
    assert a + "/" + "." + "/" + b == a + "/./" + b && a + "/" + "" + "/" + b == a + "//" + b;
    SameReduction(a, "/" + x + "/../" + b, "/" + b);
    SameReduction(a, "/./" + b, "/" + b);
    SameReduction(a, "//" + b, "/" + b);
  }

  lemma Dotted(a: string, dot: string, b: string)
    requires Plain(dot)
    ensures Split(a + "/" + dot + "/" + b) == Split(a) + [dot] + Split(b)
  {
    hide Split;
    SplitAtSlash(a + "/" + dot, b);
    SplitAtSlash(a, dot);
    SplitPlain(dot);
  }

  lemma Detour(a: string, x: string, b: string)
    requires Plain(x)
    ensures Split(a + "/" + x + "/../" + b) == Split(a) + [x] + [".."] + Split(b)
  {
    hide Split;
    assert a + "/" + x + "/../" + b == (a + "/" + x) + "/" + ".." + "/" + b;
    Dotted(a + "/" + x, "..", b);
    SplitAtSlash(a, x);
    SplitPlain(x);
  }

  /** What comes after the last slash of a path, or all of it. */
  lemma BaseNameEnds(p: string)
    ensures Plain(BaseName(p))
    ensures p == BaseName(p) || exists dir :: p == dir + "/" + BaseName(p)
  {
    hide Split, JoinParts;
    var parts := Split(p);
    var n := |parts| - 1;
    SplitIsPlain(p);
    JoinSplit(p);
    OnePart(parts[n]);
    assert parts == parts[..n] + [parts[n]];
    if n > 0 {
      JoinConcat(parts[..n], [parts[n]]);
      assert p == JoinParts(parts[..n]) + "/" + BaseName(p);
    }
  }

  lemma OnePart(part: string)
    ensures JoinParts([part]) == part
  {
  }

  lemma {:induction false} CommonPrefixOfExtension(a: seq<string>, b: seq<string>)
    ensures CommonPrefix(a, a + b) == |a|
    decreases |a|
  {
    if a != [] {
      assert (a + b)[1..] == a[1..] + b;
      CommonPrefixOfExtension(a[1..], b);
    }
  }

  lemma AbsComponents(slashes: string, comps: seq<string>, cwd: string)
    requires IsSlashes(slashes) && AllClean(comps)
    ensures NonEmpty(Split(AbsPath(Render(slashes, comps), cwd))) == comps
  {
    hide NormPath, Split, NonEmpty, JoinParts;
    RenderedIsNormal(slashes, comps);
    RenderedComponents(slashes, comps);
  }

  /** The relative path between two normalised absolute paths, one inside the other. */
  lemma RelOfExtension(s1: string, s2: string, comps: seq<string>, tail: seq<string>, cwd: string)
    requires IsSlashes(s1) && IsSlashes(s2) && AllClean(comps) && AllClean(tail)
    ensures RelPath(Render(s2, comps + tail), Render(s1, comps), cwd) == if tail == [] then "." else JoinParts(tail)
  {
    hide AbsPath, Split, NonEmpty, JoinParts, Render, CommonPrefix, IsSlashes;
    AbsComponents(s1, comps, cwd);
    AbsComponents(s2, comps + tail, cwd);
    CommonPrefixOfExtension(comps, tail);
    assert Ups(0) + (comps + tail)[|comps|..] == tail;
  }

  /** Which leading slashes go with one rendered path beginning with another and a slash. */
  lemma LeadingSlashes(s: string, comps: seq<string>, s': string, tail: seq<string>)
    requires IsSlashes(s) && IsSlashes(s') && AllClean(comps) && AllClean(comps + tail)
    requires Render(s, comps) + "/" <= Render(s', comps + tail)
    ensures if comps == [] then s == "/" && s' == "//" else s == s' && tail != []
  {
    hide JoinParts;
    JoinStart(comps);
    JoinStart(comps + tail);
    var dir, resolved := Render(s, comps), Render(s', comps + tail);
    assert forall i | 0 <= i < |dir| :: resolved[i] == dir[i];
    assert resolved[|dir|] == '/';
    if comps != [] {
      assert (comps + tail)[0] == comps[0];
      assert dir[|s|] == comps[0][0] && resolved[|s'|] == comps[0][0];
      assert comps + [] == comps;
    } else if comps + tail != [] {
      assert resolved[|s'|] != '/';
    }
  }

  /** A normalised path that begins with a normalised directory and a slash has the directory's
      components first; the root directory apart, also its slashes and at least one more. */
  lemma InsideDirectory(dir: string, resolved: string)
    returns (s: string, comps: seq<string>, s': string, tail: seq<string>)
    requires IsAbsolute(dir) && NormPath(dir) == dir && IsAbsolute(resolved) && NormPath(resolved) == resolved
    requires dir + "/" <= resolved
    ensures IsSlashes(s) && IsSlashes(s') && AllClean(comps) && AllClean(tail)
    ensures dir == Render(s, comps) && resolved == Render(s', comps + tail)
    ensures if comps == [] then s == "/" && s' == "//" else s == s' && tail != []
  {
    hide NormPath, JoinParts, Split, NonEmpty, Render;
    s, comps := NormAbsolute(dir);
    var all: seq<string>;
    s', all := NormAbsolute(resolved);
    var rest := resolved[|dir| + 1..];
    assert resolved == dir + "/" + rest;
    SplitAtSlash(dir, rest);
    NonEmptyConcat(Split(dir), Split(rest));
    RenderedComponents(s, comps);
    RenderedComponents(s', all);
    tail := NonEmpty(Split(rest));
    assert all == comps + tail;
    assert forall i | 0 <= i < |tail| :: tail[i] == all[|comps| + i];
    LeadingSlashes(s, comps, s', tail);
  }

  lemma Regrouped(a: string, b: string, c: string, d: string)
    ensures a + (b + c + d) == (a + b) + c + d
  {
  }

  lemma JoinBackText(s: string, body: string, b: string)
    requires s != "" && body != "" && body[|body| - 1] != '/' && !IsAbsolute(b)
    ensures PathJoin(s + body, b) == s + (body + "/" + b) && s + body != "/"
  {
    assert (s + body)[|s + body| - 1] == body[|body| - 1];
    assert |s + body| >= 2;
    Regrouped(s, body, "/", b);
  }

  lemma JoinBackProper(s: string, comps: seq<string>, tail: seq<string>)
    requires IsSlashes(s) && AllClean(comps) && AllClean(tail) && comps != [] && tail != []
    ensures var dir := Render(s, comps);
      PathJoin(dir, JoinParts(tail)) == Render(s, comps + tail) && dir != "/"
  {
    hide JoinParts, PathJoin, AllClean, Clean;
    JoinConcat(comps, tail);
    JoinEnd(comps);
    TailIsRelative(tail);
    JoinBackText(s, JoinParts(comps), JoinParts(tail));
  }

  lemma TailIsRelative(tail: seq<string>)
    requires AllClean(tail)
    ensures !IsAbsolute(JoinParts(tail))
  {
    hide JoinParts;
    JoinStart(tail);
  }

  // ----- A directory in front of a normal path is normal itself -----

  /** Joining the parts of a text gives the text back. */
  lemma {:induction false} JoinSplit(s: string)
    ensures JoinParts(Split(s)) == s
    decreases |s|
  {
    if s != "" {
      JoinSplit(s[1..]);
      SplitHead(s);
      JoinOnto(s[0], Split(s[1..]));
      assert s == [s[0]] + s[1..];
    }
  }

  lemma JoinOnto(c: char, parts: seq<string>)
    requires parts != []
    ensures JoinParts(Onto(c, parts)) == [c] + JoinParts(parts)
  {
    if c == '/' {
      assert ([""] + parts)[1..] == parts;
    } else {
      var all := Onto(c, parts);
      assert all[1..] == parts[1..];
      if |parts| > 1 {
        assert [c] + parts[0] + "/" + JoinParts(parts[1..]) == [c] + (parts[0] + "/" + JoinParts(parts[1..]));
      }
    }
  }

  /** The parts of a rendered path: an empty one for each leading slash, then the components. */
  lemma RenderedParts(slashes: string, comps: seq<string>)
    requires IsSlashes(slashes) && AllClean(comps) && comps != []
    ensures Split(Render(slashes, comps)) == (if slashes == "/" then [""] else ["", ""]) + comps
  {
    hide Split, JoinParts;
    var body := JoinParts(comps);
    SplitJoined(comps);
    SplitPlain("");
    SplitAtSlash("", body);
    assert "" + "/" + body == "/" + body;
    if slashes == "//" {
      SplitAtSlash("", "/" + body);
      assert "" + "/" + ("/" + body) == "//" + body;
      assert [""] + ([""] + comps) == ["", ""] + comps;
    }
  }

  lemma JoinCons(head: string, rest: seq<string>)
    requires rest != []
    ensures JoinParts([head] + rest) == head + "/" + JoinParts(rest)
  {
    assert ([head] + rest)[1..] == rest;
  }

  lemma OneSlashJoined(some: seq<string>)
    requires some != []
    ensures JoinParts([""] + some) == Render("/", some)
  {
    hide JoinParts;
    JoinCons("", some);
    assert "" + "/" + JoinParts(some) == "/" + JoinParts(some);
  }

  lemma TwoSlashesJoined(some: seq<string>)
    requires some != []
    ensures JoinParts(["", ""] + some) == Render("//", some)
  {
    hide JoinParts;
    OneSlashJoined(some);
    JoinCons("", [""] + some);
    assert ["", ""] + some == [""] + ([""] + some);
    assert "" + "/" + ("/" + JoinParts(some)) == "//" + JoinParts(some);
  }

  lemma NothingButSlash()
    ensures JoinParts(["", ""]) == "/" == Render("/", [])
  {
    JoinCons("", [""]);
    assert ["", ""] == [""] + [""];
    assert "" + "/" + "" == "/" && "/" + "" == "/";
  }

  /** A path whose parts are a beginning of a rendered path's is in normal form. */
  lemma BeginningIsNormal(parts: seq<string>, slashes: string, comps: seq<string>)
    requires IsSlashes(slashes) && AllClean(comps) && |parts| > 1
    requires parts <= (if slashes == "/" then [""] else ["", ""]) + comps
    ensures NormPath(JoinParts(parts)) == JoinParts(parts)
  {
    hide NormPath, JoinParts, Render, Clean;
    var n := |slashes|;
    var some := if |parts| <= n then [] else parts[n..];
    assert forall i | 0 <= i < |some| :: some[i] == comps[i];
    RenderedIsNormal(slashes, some);
    if some == [] {
      assert parts == ["", ""];
      NothingButSlash();
      RenderedIsNormal("/", []);
    } else if slashes == "/" {
      assert parts == [""] + some;
      OneSlashJoined(some);
    } else {
      assert parts == ["", ""] + some;
      TwoSlashesJoined(some);
    }
  }

  lemma SlashesOnly(dir: string, resolved: string)
    requires IsAbsolute(dir) && IsSlashes(resolved) && dir + "/" <= resolved
    ensures dir == "/"
  {
    assert |dir| == 1;
  }

  /** So an absolute directory that a normal path lies in is in normal form. */
  lemma DirectoryIsNormal(dir: string, resolved: string)
    requires IsAbsolute(dir) && IsAbsolute(resolved) && NormPath(resolved) == resolved && dir + "/" <= resolved
    ensures NormPath(dir) == dir
  {
    hide NormPath, JoinParts, Split;
    var s, comps := NormAbsolute(resolved);
    if comps == [] {
      JoinStart(comps);
      assert resolved == s + "" == s;
      SlashesOnly(dir, resolved);
      RenderedIsNormal("/", comps);
      assert "/" + "" == "/";
    } else {
      var rest := resolved[|dir| + 1..];
      assert resolved == dir + "/" + rest;
      SplitAtSlash(dir, rest);
      RenderedParts(s, comps);
      AbsoluteParts(dir);
      BeginningIsNormal(Split(dir), s, comps);
      JoinSplit(dir);
    }
  }

  lemma AbsoluteParts(p: string)
    requires IsAbsolute(p)
    ensures |Split(p)| > 1
  {
    SplitHead(p);
  }

  lemma JoinBackRoot(rel: string, body: string)
    requires !IsAbsolute(rel)
    ensures PathJoin("/", rel) != "//" + body
  {
    assert PathJoin("/", rel) == "/" + rel;
    assert ("//" + body)[1] == '/';
    if rel != "" {
      assert ("/" + rel)[1] == rel[0];
    }
  }

  /** Relativising a path inside a directory: nothing goes up, and joining it to the directory
      gives the path back, exactly when the directory is not the root. */
  lemma RoundTrip(dir: string, resolved: string, cwd: string)
    requires IsAbsolute(dir) && IsAbsolute(resolved) && NormPath(resolved) == resolved && dir + "/" <= resolved
    ensures var rel := RelPath(resolved, dir, cwd);
      && ".." !in Split(rel) && rel != "" && !IsAbsolute(rel)
      && (PathJoin(dir, rel) == resolved <==> dir != "/")
  {
    hide NormPath, RelPath;
    DirectoryIsNormal(dir, resolved);
    var s, comps, s', tail := InsideDirectory(dir, resolved);
    RelOfExtension(s, s', comps, tail, cwd);
    var rel := RelPath(resolved, dir, cwd);
    JoinStart(tail);
    if tail != [] {
      SplitJoined(tail);
    } else {
      SplitPlain(".");
    }
    if comps != [] {
      JoinBackProper(s, comps, tail);
    } else {
      JoinBackRoot(rel, JoinParts(comps + tail));
    }
  }

  /** The root and a path with two leading slashes: what is relative to the root comes back with
      one slash. */
  lemma RootDoesNotRoundTrip(cwd: string)
    ensures NormPath("/") == "/" && NormPath("//x") == "//x" && "/" + "/" <= "//x"
    ensures PathJoin("/", RelPath("//x", "/", cwd)) == "/x"
  {
    hide NormPath, RelPath, Split;
    assert Clean("x");
    RenderedIsNormal("/", []);
    RenderedIsNormal("//", ["x"]);
    RelOfExtension("/", "//", [], ["x"], cwd);
    assert [] + ["x"] == ["x"] && "/" + "" == "/" && "//" + "x" == "//x";
  }

  lemma {:induction false} JoinEnd(comps: seq<string>)
    requires comps != [] && AllClean(comps)
    ensures JoinParts(comps) != "" && JoinParts(comps)[|JoinParts(comps)| - 1] != '/'
    decreases |comps|
  {
    assert Clean(comps[0]);
    if |comps| == 1 {
      assert comps[0][|comps[0]| - 1] in comps[0];
    } else {
      JoinEnd(comps[1..]);
    }
  }
}
