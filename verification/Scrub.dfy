/** `scrub` of scripts/journey_walker.py: every secret of at least eight characters is
    replaced by a marker, longest secret first; ties come in any order. */
module Scrub {
  import opened Text

  const MIN_SECRET_LENGTH := 8
  const MARKER := "<redacted>"
  const WORD := "redacted"

  predicate Eligible(s: string, secrets: seq<string>) {
    s in secrets && |s| >= MIN_SECRET_LENGTH
  }

  /** An order in which the eligible secrets can be visited: each once, longest first. */
  ghost predicate VisitOrder(order: seq<string>, secrets: seq<string>) {
    && (forall s :: s in order <==> Eligible(s, secrets))
    && LongestFirst(order)
    && (forall i, j | 0 <= i < j < |order| :: order[i] != order[j])
  }

  ghost predicate LongestFirst(order: seq<string>) {
    forall i, j | 0 <= i < j < |order| :: |order[i]| >= |order[j]|
  }

  /** The text after visiting the secrets in the given order. */
  function Scrubbed(text: string, order: seq<string>): string
    requires "" !in order
    decreases |order|
  {
    if order == [] then text
    else Scrubbed(Replace(text, order[0], MARKER), order[1..])
  }

  lemma {:induction false} LongestExists(left: set<string>)
    requires left != {}
    ensures exists s | s in left :: forall t | t in left :: |t| <= |s|
  {
    var x :| x in left;
    if left != {x} {
      LongestExists(left - {x});
      var y :| y in left - {x} && forall t | t in left - {x} :: |t| <= |y|;
      if |x| >= |y| {
        assert forall t | t in left :: |t| <= |x|;
      } else {
        assert forall t | t in left :: |t| <= |y|;
      }
    } else {
      assert forall t | t in left :: |t| <= |x|;
    }
  }

  lemma {:induction false} ScrubbedStep(text: string, order: seq<string>, s: string)
    requires "" !in order && s != ""
    ensures Scrubbed(text, order + [s]) == Replace(Scrubbed(text, order), s, MARKER)
    decreases |order|
  {
    if order == [] {
      assert (order + [s])[1..] == [];
    } else {
      assert (order + [s])[1..] == order[1..] + [s];
      ScrubbedStep(Replace(text, order[0], MARKER), order[1..], s);
    }
  }

  /** Halfway: some secrets are visited, the others, none longer, are still to come. */
  ghost predicate Halfway(order: seq<string>, left: set<string>, secrets: seq<string>) {
    && (forall s :: s in order || s in left <==> Eligible(s, secrets))
    && (forall s | s in order :: s !in left)
    && (forall s, t | s in order && t in left :: |s| >= |t|)
    && LongestFirst(order)
    && (forall i, j | 0 <= i < j < |order| :: order[i] != order[j])
  }

  lemma HalfwayStep(order: seq<string>, left: set<string>, secrets: seq<string>, s: string)
    requires Halfway(order, left, secrets)
    requires s in left && forall t | t in left :: |t| <= |s|
    ensures Halfway(order + [s], left - {s}, secrets)
  {
    var next := order + [s];
    forall t
      ensures t in next || t in left - {s} <==> Eligible(t, secrets)
    {
      assert t in next <==> t in order || t == s;
    }
  }

  method Scrub(text: string, secrets: seq<string>) returns (scrubbed: string)
    ensures exists order | VisitOrder(order, secrets) && "" !in order :: scrubbed == Scrubbed(text, order)
  {
    scrubbed := text;
    ghost var order: seq<string> := [];
    var left := set s | s in secrets && |s| >= MIN_SECRET_LENGTH;
    while left != {}
      invariant Halfway(order, left, secrets) && "" !in order
      invariant scrubbed == Scrubbed(text, order)
      decreases left
    {
      LongestExists(left);
      var s :| s in left && forall t | t in left :: |t| <= |s|;
      assert Eligible(s, secrets);
      ScrubbedStep(text, order, s);
      HalfwayStep(order, left, secrets, s);
      scrubbed := Replace(scrubbed, s, MARKER);
      left := left - {s};
      order := order + [s];
    }
  }

  // ----- Completeness: no eligible secret is left -----

  /** Every later replacement keeps an absent secret absent. */
  lemma {:induction false} LaterVisitsKeepAbsent(text: string, order: seq<string>, s: string)
    requires "" !in order && s != "" && !Clashes(s, MARKER) && !Contains(text, s)
    ensures !Contains(Scrubbed(text, order), s)
    decreases |order|
  {
    if order != [] {
      ReplaceKeepsAbsent(text, order[0], MARKER, s);
      LaterVisitsKeepAbsent(Replace(text, order[0], MARKER), order[1..], s);
    }
  }

  /** A visited secret that cannot be read out of the marker is gone at the end, whatever
      the other secrets are and however the marker joins the text around it. */
  lemma {:induction false} VisitedSecretIsGone(text: string, order: seq<string>, s: string)
    requires "" !in order && s in order && !Clashes(s, MARKER)
    ensures !Contains(Scrubbed(text, order), s)
    decreases |order|
  {
    var next := Replace(text, order[0], MARKER);
    if order[0] == s {
      ReplaceRemoves(text, s, MARKER);
      LaterVisitsKeepAbsent(next, order[1..], s);
    } else {
      VisitedSecretIsGone(next, order[1..], s);
    }
  }

  predicate BracketFree(s: string) {
    '<' !in s && '>' !in s
  }

  /** A placement that covers either bracket of the marker is a mismatch. */
  lemma BracketFreePlacement(s: string, d: int)
    requires BracketFree(s) && |s| >= MIN_SECRET_LENGTH && -|s| < d < |MARKER|
    requires d != 1 || |s| != 8
    ensures !Agree(s, MARKER, d)
  {
    if d <= 0 {
      assert s[-d] != MARKER[-d + d];
    } else {
      assert s[9 - d] != MARKER[9 - d + d];
    }
  }

  /** Of the bracket-free strings long enough to be secrets, only the word inside the marker
      can be read out of it. */
  lemma BracketFreeClash(s: string)
    requires BracketFree(s) && |s| >= MIN_SECRET_LENGTH
    ensures Clashes(s, MARKER) <==> s == WORD
  {
    if s == WORD {
      assert Agree(s, MARKER, 1);
    }
    if Clashes(s, MARKER) {
      var d :| -|s| < d < |MARKER| && Agree(s, MARKER, d);
      if d != 1 || |s| != 8 {
        BracketFreePlacement(s, d);
      }
      forall x | 0 <= x < 8
        ensures s[x] == WORD[x]
      {
        assert s[x] == MARKER[x + 1];
      }
    }
  }

  /** Eight is the least minimum length for which that holds. */
  lemma MinimumLengthIsExact(k: nat)
    ensures (forall s | BracketFree(s) && |s| >= k && s != WORD && s != "" :: !Clashes(s, MARKER))
      <==> k >= MIN_SECRET_LENGTH
  {
    if k < MIN_SECRET_LENGTH {
      var s := "edacted";
      assert Agree(s, MARKER, 2);
      assert BracketFree(s) && |s| >= k && s != WORD && Clashes(s, MARKER);
    } else {
      forall s | BracketFree(s) && |s| >= k && s != WORD && s != ""
        ensures !Clashes(s, MARKER)
      {
        BracketFreeClash(s);
      }
    }
  }

  /** No eligible secret occurs in the scrubbed text. */
  ghost predicate LeaksNothing(text: string, order: seq<string>, secrets: seq<string>)
    requires "" !in order
  {
    forall s | Eligible(s, secrets) :: !Contains(Scrubbed(text, order), s)
  }

  lemma ScrubIsComplete(text: string, order: seq<string>, secrets: seq<string>)
    requires VisitOrder(order, secrets)
    requires forall s | Eligible(s, secrets) :: !Clashes(s, MARKER)
    ensures "" !in order && LeaksNothing(text, order, secrets)
  {
    forall s | Eligible(s, secrets)
      ensures !Contains(Scrubbed(text, order), s)
    {
      VisitedSecretIsGone(text, order, s);
    }
  }

  lemma TooLongIsAbsent(t: string, s: string)
    requires |s| > |t| || (|s| == |t| && s != t)
    ensures !Contains(t, s)
  {
    assert t[0..|t|] == t;
    forall i | 0 <= i <= |t|
      ensures !At(t, s, i)
    {
    }
  }

  lemma {:induction false} ReplaceAbsent(t: string, old_: string, m: string)
    requires old_ != "" && !Contains(t, old_)
    ensures Replace(t, old_, m) == t
    decreases |t|
  {
    if |t| >= |old_| {
      AbsentIsNoPrefix(t, old_);
      AbsentFromSuffix(t, old_, 1);
      ReplaceAbsent(t[1..], old_, m);
    }
  }

  lemma {:induction false} ScrubbedAbsent(text: string, order: seq<string>)
    requires "" !in order && forall s | s in order :: !Contains(text, s)
    ensures Scrubbed(text, order) == text
    decreases |order|
  {
    if order != [] {
      ReplaceAbsent(text, order[0], MARKER);
      ScrubbedAbsent(text, order[1..]);
    }
  }

  lemma NoClashIsAbsent(s: string)
    requires s != "" && !Clashes(s, MARKER)
    ensures !Contains(MARKER, s)
  {
    forall i | At(MARKER, s, i)
      ensures false
    {
      assert MARKER == MARKER + "";
      LeadingCopyClashes(MARKER, "", s, i);
    }
  }

  /** A text that is exactly one secret becomes exactly one marker: visiting the longest
      first, no shorter secret inside it breaks it up beforehand. */
  lemma {:induction false} WholeSecret(order: seq<string>, s: string)
    requires LongestFirst(order) && "" !in order && s in order
    requires forall i, j | 0 <= i < j < |order| :: order[i] != order[j]
    requires forall t | t in order :: t == s || !Contains(MARKER, t)
    ensures Scrubbed(s, order) == MARKER
    decreases |order|
  {
    if order[0] == s {
      assert s[|s|..] == "";
      assert Replace("", s, MARKER) == "";
      assert Replace(s, s, MARKER) == MARKER;
      ScrubbedAbsent(MARKER, order[1..]);
    } else {
      assert |order[0]| >= |s|;
      TooLongIsAbsent(s, order[0]);
      ReplaceAbsent(s, order[0], MARKER);
      WholeSecret(order[1..], s);
    }
  }

  /** For bracket-free secrets the scrubber leaks nothing from any text, exactly when the
      word inside the marker is not itself a secret. */
  lemma CompleteIffWordIsNoSecret(order: seq<string>, secrets: seq<string>)
    requires VisitOrder(order, secrets)
    requires forall s | Eligible(s, secrets) :: BracketFree(s)
    ensures "" !in order
    ensures (forall text :: LeaksNothing(text, order, secrets)) <==> WORD !in secrets
  {
    if WORD in secrets {
      assert Eligible(WORD, secrets);
      forall t | t in order && t != WORD
        ensures !Contains(MARKER, t)
      {
        BracketFreeClash(t);
        NoClashIsAbsent(t);
      }
      WholeSecret(order, WORD);
      assert At(MARKER, WORD, 1);
      assert !LeaksNothing(WORD, order, secrets);
    } else {
      forall s | Eligible(s, secrets)
        ensures !Clashes(s, MARKER)
      {
        BracketFreeClash(s);
      }
      forall text
        ensures LeaksNothing(text, order, secrets)
      {
        ScrubIsComplete(text, order, secrets);
      }
    }
  }

  // ----- Secrets with a bracket -----

  lemma OneFurther(t: string, n: nat, tail: string)
    requires 0 < n <= |t|
    ensures t[1..][n - 1..] == t[n..] && [t[0]] + (t[1..][..n - 1] + tail) == t[..n] + tail
  {
    assert t[..n] == [t[0]] + t[1..][..n - 1];
  }

  lemma NotFurtherOn(t: string, old_: string, n: nat)
    requires 0 < n <= |t| && forall i | 0 <= i < n :: !(old_ <= t[i..])
    ensures !(old_ <= t) && forall i | 0 <= i < n - 1 :: !(old_ <= t[1..][i..])
  {
    assert t[0..] == t;
    assert forall i | 0 <= i < n - 1 :: t[1..][i..] == t[i + 1..];
  }

  /** Where the replaced string does not begin, the text is kept. */
  lemma {:induction false} ReplaceSkips(t: string, old_: string, m: string, n: nat)
    requires old_ != "" && n <= |t| && forall i | 0 <= i < n :: !(old_ <= t[i..])
    ensures Replace(t, old_, m) == t[..n] + Replace(t[n..], old_, m)
    decreases n
  {
    hide Replace;
    if n == 0 {
      assert t[0..] == t;
    } else {
      NotFurtherOn(t, old_, n);
      NoMatchHead(t, old_, m);
      ReplaceSkips(t[1..], old_, m, n - 1);
      OneFurther(t, n, Replace(t[n..], old_, m));
    }
  }

  const BRACKETED := "passwor<"

  /** A secret that ends in the marker's bracket can come back: what stands before it joins with
      the marker. */
  lemma BracketedSecretLeaks()
    ensures Eligible(BRACKETED, [BRACKETED]) && VisitOrder([BRACKETED], [BRACKETED])
    ensures Contains(Scrubbed("passworpasswor<", [BRACKETED]), BRACKETED)
  {
    hide Replace;
    var text := "passworpasswor<";
    assert forall i | 1 <= i < 7 :: text[i] != 'p';
    forall i | 0 <= i < 7
      ensures !(BRACKETED <= text[i..])
    {
      assert text[i..][0] == text[i] && (i == 0 ==> text[i..][7] == text[7]);
    }
    ReplaceSkips(text, BRACKETED, MARKER, 7);
    assert text[7..] == BRACKETED;
    MatchHead(BRACKETED, BRACKETED, MARKER);
    assert BRACKETED[8..] == "";
    NothingToReplace(BRACKETED, MARKER);
    var once := Replace(text, BRACKETED, MARKER);
    assert |BRACKETED| == 8 && once == text[..7] + (MARKER + "");
    var r := Scrubbed(text, [BRACKETED]);
    assert [BRACKETED][1..] == [] && Scrubbed(once, []) == once;
    assert r == text[..7] + (MARKER + "");
    assert r[0..8] == BRACKETED;
    assert At(r, BRACKETED, 0);
  }

  // ----- Precision: a delimited secret leaves no fragment and disturbs nothing else -----

  /** A string without the character cannot reach across it. */
  lemma CannotReachAcross(a: string, c: char, b: string, old_: string)
    requires c !in old_
    ensures old_ <= a + [c] + b <==> old_ <= a
  {
    var t := a + [c] + b;
    assert t[|a|] == c && t[..|a|] == a;
    assert old_ <= t ==> |old_| <= |a|;
    assert old_ <= a ==> old_ == t[..|old_|];
  }

  /** A character foreign to the replaced string cuts the work in two. */
  lemma {:induction false} ReplaceSplits(a: string, c: char, b: string, old_: string, m: string)
    requires old_ != "" && c !in old_
    ensures Replace(a + [c] + b, old_, m) == Replace(a, old_, m) + [c] + Replace(b, old_, m)
    decreases |a|
  {
    hide Replace;
    var t := a + [c] + b;
    CannotReachAcross(a, c, b, old_);
    if old_ <= t {
      var n := |old_|;
      MatchHead(t, old_, m);
      MatchHead(a, old_, m);
      assert t[n..] == a[n..] + [c] + b;
      ReplaceSplits(a[n..], c, b, old_, m);
    } else {
      NoMatchHead(t, old_, m);
      if a == "" {
        NothingToReplace(old_, m);
        assert t[1..] == b;
      } else {
        NoMatchHead(a, old_, m);
        assert t[1..] == a[1..] + [c] + b;
        ReplaceSplits(a[1..], c, b, old_, m);
      }
    }
  }

  lemma {:induction false} ScrubbedSplits(a: string, c: char, b: string, order: seq<string>)
    requires "" !in order && forall s | s in order :: c !in s
    ensures Scrubbed(a + [c] + b, order) == Scrubbed(a, order) + [c] + Scrubbed(b, order)
    decreases |order|
  {
    if order != [] {
      ReplaceSplits(a, c, b, order[0], MARKER);
      ScrubbedSplits(Replace(a, order[0], MARKER), c, Replace(b, order[0], MARKER), order[1..]);
    }
  }

  /** A secret between two characters that occur in no secret becomes one marker, and the
      text on either side is scrubbed as if the secret were not there. */
  lemma DelimitedSecret(a: string, c: char, s: string, d: char, b: string, order: seq<string>, secrets: seq<string>)
    requires VisitOrder(order, secrets) && Eligible(s, secrets)
    requires forall t | Eligible(t, secrets) :: c !in t && d !in t && !Clashes(t, MARKER)
    ensures "" !in order
    ensures Scrubbed(a + [c] + s + [d] + b, order) == Scrubbed(a, order) + [c] + MARKER + [d] + Scrubbed(b, order)
  {
    ScrubbedSplits(a + [c] + s, d, b, order);
    ScrubbedSplits(a, c, s, order);
    forall t | t in order
      ensures !Contains(MARKER, t)
    {
      NoClashIsAbsent(t);
    }
    WholeSecret(order, s);
  }
}
