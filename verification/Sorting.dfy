/** Python's `sorted`: a stable sort by a total preorder. */
module Sorting {

  ghost predicate TotalPreorder<T(!new)>(leq: (T, T) -> bool) {
    && (forall x, y :: leq(x, y) || leq(y, x))
    && (forall x, y, z :: leq(x, y) && leq(y, z) ==> leq(x, z))
  }

  ghost predicate Ascending<T>(s: seq<T>, leq: (T, T) -> bool) {
    forall i, j | 0 <= i < j < |s| :: leq(s[i], s[j])
  }

  lemma CountTwice<T>(s: seq<T>, i: nat, j: nat)
    requires i < j < |s| && s[i] == s[j]
    ensures multiset(s)[s[i]] >= 2
  {
    assert s == s[..j] + s[j..];
    assert s[..j][i] in multiset(s[..j]) && s[j..][0] in multiset(s[j..]);
  }

  /** `x` before the first element it may stand before. */
  function Insert<T>(x: T, s: seq<T>, leq: (T, T) -> bool): seq<T> {
    if s == [] || leq(x, s[0]) then [x] + s else [s[0]] + Insert(x, s[1..], leq)
  }

  function Sorted<T>(s: seq<T>, leq: (T, T) -> bool): seq<T> {
    if s == [] then [] else Insert(s[0], Sorted(s[1..], leq), leq)
  }

  lemma PrependAscends<T(!new)>(x: T, s: seq<T>, leq: (T, T) -> bool)
    requires TotalPreorder(leq) && Ascending(s, leq) && (s != [] ==> leq(x, s[0]))
    ensures Ascending([x] + s, leq)
  {
    forall j | 0 <= j < |s|
      ensures leq(x, s[j])
    {
      assert leq(s[0], s[j]);
    }
  }

  lemma {:induction false} InsertSorts<T(!new)>(x: T, s: seq<T>, leq: (T, T) -> bool)
    requires TotalPreorder(leq) && Ascending(s, leq)
    ensures Ascending(Insert(x, s, leq), leq)
    ensures multiset(Insert(x, s, leq)) == multiset(s) + multiset{x}
    decreases |s|
  {
    if s != [] && !leq(x, s[0]) {
      assert s == [s[0]] + s[1..];
      InsertSorts(x, s[1..], leq);
      var rest := Insert(x, s[1..], leq);
      forall i | 0 <= i < |rest|
        ensures leq(s[0], rest[i])
      {
        assert rest[i] in multiset(rest);
        assert rest[i] == x || rest[i] in s[1..];
      }
      PrependAscends(s[0], rest, leq);
      assert multiset([s[0]] + rest) == multiset{s[0]} + multiset(rest);
    } else {
      PrependAscends(x, s, leq);
    }
  }

  /** The sorted list has the same elements in ascending order. */
  lemma {:induction false} SortedSorts<T(!new)>(s: seq<T>, leq: (T, T) -> bool)
    requires TotalPreorder(leq)
    ensures Ascending(Sorted(s, leq), leq) && multiset(Sorted(s, leq)) == multiset(s)
    decreases |s|
  {
    if s != [] {
      SortedSorts(s[1..], leq);
      InsertSorts(s[0], Sorted(s[1..], leq), leq);
      assert s == [s[0]] + s[1..];
    }
  }

  function Select<T>(s: seq<T>, keep: T -> bool): seq<T> {
    if s == [] then [] else (if keep(s[0]) then [s[0]] else []) + Select(s[1..], keep)
  }

  lemma {:induction false} SelectCounts<T>(s: seq<T>, keep: T -> bool, x: T)
    ensures multiset(Select(s, keep))[x] == if keep(x) then multiset(s)[x] else 0
    decreases |s|
  {
    if s != [] {
      var first, rest := [s[0]], s[1..];
      SelectCounts(rest, keep, x);
      assert s == first + rest;
      assert multiset(s) == multiset(first) + multiset(rest);
      var kept := if keep(s[0]) then first else [];
      assert Select(s, keep) == kept + Select(rest, keep);
      assert multiset(kept)[x] == if x == s[0] && keep(x) then 1 else 0;
    }
  }

  lemma SelectHead<T>(x: T, s: seq<T>, keep: T -> bool)
    ensures Select([x] + s, keep) == (if keep(x) then [x] else []) + Select(s, keep)
  {
    assert ([x] + s)[1..] == s;
  }

  lemma {:induction false} SelectConcat<T>(a: seq<T>, b: seq<T>, keep: T -> bool)
    ensures Select(a + b, keep) == Select(a, keep) + Select(b, keep)
    decreases |a|
  {
    if a == [] {
      assert a + b == b;
    } else {
      hide Select;
      var x, rest := a[0], a[1..];
      SelectConcat(rest, b, keep);
      SelectHead(x, rest + b, keep);
      SelectHead(x, rest, keep);
      assert a == [x] + rest && a + b == [x] + (rest + b);
    }
  }

  lemma {:induction false} InsertStable<T>(x: T, s: seq<T>, leq: (T, T) -> bool, keep: T -> bool)
    requires keep(x) ==> forall y | keep(y) && y in s :: leq(x, y)
    ensures Select(Insert(x, s, leq), keep) == (if keep(x) then [x] else []) + Select(s, keep)
    decreases |s|
  {
    if s != [] && !leq(x, s[0]) {
      assert keep(x) ==> !keep(s[0]);
      assert forall y | y in s[1..] :: y in s;
      InsertStable(x, s[1..], leq, keep);
      assert Insert(x, s, leq) == [s[0]] + Insert(x, s[1..], leq);
      SelectHead(s[0], Insert(x, s[1..], leq), keep);
      SelectHead(s[0], s[1..], keep);
      assert s == [s[0]] + s[1..];
    } else {
      SelectHead(x, s, keep);
    }
  }

  /** Elements that tie keep their order. */
  lemma {:induction false} SortedIsStable<T(!new)>(s: seq<T>, leq: (T, T) -> bool, keep: T -> bool)
    requires TotalPreorder(leq) && forall x, y | keep(x) && keep(y) :: leq(x, y)
    ensures Select(Sorted(s, leq), keep) == Select(s, keep)
    decreases |s|
  {
    if s != [] {
      SortedIsStable(s[1..], leq, keep);
      InsertStable(s[0], Sorted(s[1..], leq), leq, keep);
    }
  }

  /** Strings compare character by character, a prefix first. */
  function StringLeq(a: string, b: string): bool {
    a == "" || (b != "" && (a[0] < b[0] || (a[0] == b[0] && StringLeq(a[1..], b[1..]))))
  }

  lemma {:induction false} StringTotal(a: string, b: string)
    ensures StringLeq(a, b) || StringLeq(b, a)
    ensures StringLeq(a, b) && StringLeq(b, a) ==> a == b
    decreases |a|
  {
    if a != "" && b != "" {
      StringTotal(a[1..], b[1..]);
      assert a == [a[0]] + a[1..] && b == [b[0]] + b[1..];
    }
  }

  /** `a` is the beginning of `b`, or smaller at the first place where they differ. */
  ghost predicate NotAfter(a: string, b: string) {
    a <= b || exists k | 0 <= k < |a| && k < |b| :: a[..k] == b[..k] && a[k] < b[k]
  }

  lemma {:induction false} StringLeqMeans(a: string, b: string)
    ensures StringLeq(a, b) <==> NotAfter(a, b)
    decreases |a|
  {
    hide NotAfter;
    if a != "" && b != "" && a[0] == b[0] {
      StringLeqMeans(a[1..], b[1..]);
      NotAfterTail(a, b);
    } else {
      NotAfterHead(a, b);
    }
  }

  lemma NotAfterTail(a: string, b: string)
    requires a != "" && b != "" && a[0] == b[0]
    ensures NotAfter(a, b) <==> NotAfter(a[1..], b[1..])
  {
    var s, t := a[1..], b[1..];
    assert a == [a[0]] + s && b == [b[0]] + t;
    if k :| 0 <= k < |s| && k < |t| && s[..k] == t[..k] && s[k] < t[k] {
      assert a[..k + 1] == [a[0]] + s[..k] && b[..k + 1] == [b[0]] + t[..k];
      assert a[..k + 1] == b[..k + 1] && a[k + 1] < b[k + 1];
    }
    if k :| 0 <= k < |a| && k < |b| && a[..k] == b[..k] && a[k] < b[k] {
      assert s[..k - 1] == a[..k][1..] && t[..k - 1] == b[..k][1..];
      assert s[..k - 1] == t[..k - 1] && s[k - 1] < t[k - 1];
    }
  }

  lemma NotAfterHead(a: string, b: string)
    requires a == "" || b == "" || a[0] != b[0]
    ensures NotAfter(a, b) <==> a == "" || (b != "" && a[0] < b[0])
  {
    if a != "" && b != "" {
      assert a[..0] == b[..0];
      forall k | 0 < k < |a| && k < |b|
        ensures a[..k] != b[..k]
      {
        assert a[..k][0] != b[..k][0];
      }
    }
  }

  lemma {:induction false} SelectAscends<T(!new)>(s: seq<T>, leq: (T, T) -> bool, keep: T -> bool)
    requires Ascending(s, leq)
    ensures Ascending(Select(s, keep), leq)
    ensures forall x | x in Select(s, keep) :: x in s && keep(x)
    decreases |s|
  {
    if s != [] {
      SelectAscends(s[1..], leq, keep);
      var rest := Select(s[1..], keep);
      forall i | 0 <= i < |rest|
        ensures leq(s[0], rest[i])
      {
        assert rest[i] in rest;
        var j :| 0 <= j < |s[1..]| && s[1..][j] == rest[i];
        assert s[j + 1] == rest[i];
      }
      assert s == [s[0]] + s[1..];
    }
  }

  lemma {:induction false} StringTransitive(a: string, b: string, c: string)
    requires StringLeq(a, b) && StringLeq(b, c)
    ensures StringLeq(a, c)
    decreases |a|
  {
    if a != "" && a[0] == b[0] == c[0] {
      StringTransitive(a[1..], b[1..], c[1..]);
    }
  }
}
