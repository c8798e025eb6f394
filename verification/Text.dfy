/** The string operations of the modelled programs: substring tests and the
    leftmost, non-overlapping replacement of `str.replace`. */
module Text {

  /** `s` occurs in `t` at index `i`. */
  predicate At(t: string, s: string, i: int) {
    0 <= i && i + |s| <= |t| && t[i..i + |s|] == s
  }

  predicate Contains(t: string, s: string) {
    exists i | 0 <= i <= |t| :: At(t, s, i)
  }

  predicate EndsWith(t: string, s: string) {
    |s| <= |t| && t[|t| - |s|..] == s
  }

  /** Without the leading characters that are to be dropped. */
  function StripLeft(s: string, drop: char -> bool): string {
    if s != "" && drop(s[0]) then StripLeft(s[1..], drop) else s
  }

  function StripRight(s: string, drop: char -> bool): string
    decreases |s|
  {
    if s != "" && drop(s[|s| - 1]) then StripRight(s[..|s| - 1], drop) else s
  }

  /** Stripping leaves a contiguous part of the text that does not begin with such a character. */
  lemma {:induction false} StripLeftPart(s: string, drop: char -> bool)
    ensures exists k | 0 <= k <= |s| :: StripLeft(s, drop) == s[k..]
    ensures StripLeft(s, drop) != "" ==> !drop(StripLeft(s, drop)[0])
    decreases |s|
  {
    if s != "" && drop(s[0]) {
      StripLeftPart(s[1..], drop);
      var k :| 0 <= k <= |s[1..]| && StripLeft(s[1..], drop) == s[1..][k..];
      assert s[1..][k..] == s[k + 1..];
    } else {
      assert s[0..] == s;
    }
  }

  /** The same at the end, where a prefix is left. */
  lemma {:induction false} StripRightPart(s: string, drop: char -> bool)
    ensures StripRight(s, drop) <= s
    ensures StripRight(s, drop) != "" ==> var r := StripRight(s, drop); !drop(r[|r| - 1])
    decreases |s|
  {
    if s != "" && drop(s[|s| - 1]) {
      StripRightPart(s[..|s| - 1], drop);
    }
  }

  function Replace(t: string, old_: string, new_: string): string
    requires old_ != ""
    decreases |t|
  {
    if |t| < |old_| then t
    else if old_ <= t then new_ + Replace(t[|old_|..], old_, new_)
    else [t[0]] + Replace(t[1..], old_, new_)
  }

  lemma MatchHead(t: string, old_: string, m: string)
    requires old_ != "" && old_ <= t
    ensures Replace(t, old_, m) == m + Replace(t[|old_|..], old_, m)
  {
  }

  lemma NoMatchHead(t: string, old_: string, m: string)
    requires old_ != "" && t != "" && !(old_ <= t)
    ensures Replace(t, old_, m) == [t[0]] + Replace(t[1..], old_, m)
  {
    if |t| < |old_| {
      assert t == [t[0]] + t[1..];
    }
  }

  lemma NothingToReplace(old_: string, m: string)
    requires old_ != ""
    ensures Replace("", old_, m) == ""
  {
  }

  /** Absence from a text is absence from each of its suffixes. */
  lemma AbsentFromSuffix(t: string, s: string, k: nat)
    requires k <= |t| && !Contains(t, s)
    ensures !Contains(t[k..], s)
  {
    forall i | At(t[k..], s, i)
      ensures false
    {
      assert t[k + i..k + i + |s|] == t[k..][i..i + |s|];
      assert At(t, s, k + i);
    }
  }

  lemma AbsentIsNoPrefix(t: string, s: string)
    requires !Contains(t, s)
    ensures !(s <= t)
  {
    if s <= t {
      assert At(t, s, 0);
    }
  }

  /** Laying `s` with its first character at offset `d` from the start of `m`,
      the two agree wherever they lie on top of each other. */
  ghost predicate Agree(s: string, m: string, d: int) {
    forall x | 0 <= x < |s| && 0 <= x + d < |m| :: s[x] == m[x + d]
  }

  /** Some placement in which `s` and `m` share a position makes them agree there:
      `s` can be read partly or wholly out of an occurrence of `m`. */
  ghost predicate Clashes(s: string, m: string) {
    exists d | -|s| < d < |m| :: Agree(s, m, d)
  }

  /** A prefix of a replaced text was a prefix of the text already, unless it runs into
      a copy of the replacement. */
  lemma {:induction false} PrefixOfReplace(t: string, old_: string, m: string, q: string)
    requires old_ != "" && q <= Replace(t, old_, m)
    ensures q <= t || exists d | -|q| < d <= 0 :: Agree(q, m, d)
    decreases |t|
  {
    if q == "" || |t| < |old_| {
    } else if old_ <= t {
      assert Agree(q, m, 0) by {
        forall x | 0 <= x < |q| && 0 <= x + 0 < |m|
          ensures q[x] == m[x + 0]
        {
          assert Replace(t, old_, m)[x] == m[x];
        }
      }
    } else {
      var rest := Replace(t[1..], old_, m);
      assert Replace(t, old_, m)[1..] == rest;
      PrefixOfReplace(t[1..], old_, m, q[1..]);
      if d :| -|q[1..]| < d <= 0 && Agree(q[1..], m, d) {
        assert Agree(q, m, d - 1) by {
          forall x | 0 <= x < |q| && 0 <= x + (d - 1) < |m|
            ensures q[x] == m[x + (d - 1)]
          {
            assert q[1..][x - 1] == m[(x - 1) + d];
          }
        }
      }
    }
  }

  /** An occurrence that begins inside a leading copy of the replacement clashes with it. */
  lemma LeadingCopyClashes(m: string, rest: string, s: string, i: nat)
    requires i < |m| && s != "" && At(m + rest, s, i)
    ensures Clashes(s, m)
  {
    forall x | 0 <= x < |s| && 0 <= x + i < |m|
      ensures s[x] == m[x + i]
    {
      assert (m + rest)[i..i + |s|][x] == (m + rest)[x + i];
    }
    assert Agree(s, m, i);
  }

  /** Replacing brings in no string that does not clash with the replacement. */
  lemma {:induction false} ReplaceKeepsAbsent(t: string, old_: string, m: string, s: string)
    requires old_ != "" && m != "" && s != "" && !Clashes(s, m) && !Contains(t, s)
    ensures !Contains(Replace(t, old_, m), s)
    decreases |t|
  {
    ReplaceStep(t, old_, m, s);
  }

  /** Replacing leaves no occurrence of the replaced string, if it does not clash with
      the replacement. */
  lemma {:induction false} ReplaceRemoves(t: string, old_: string, m: string)
    requires old_ != "" && m != "" && !Clashes(old_, m)
    ensures !Contains(Replace(t, old_, m), old_)
    decreases |t|
  {
    ReplaceStep(t, old_, m, old_);
  }

  /** An occurrence either begins in the first part or lies in the second. */
  lemma FoundInRest(head: string, rest: string, s: string, i: int)
    requires At(head + rest, s, i) && |head| <= i
    ensures Contains(rest, s)
  {
    assert (head + rest)[i..i + |s|] == rest[i - |head|..i - |head| + |s|];
    assert At(rest, s, i - |head|);
  }

  /** A copy of the replacement put in front brings in nothing that does not clash with it. */
  lemma AbsentBehindCopy(m: string, rest: string, s: string)
    requires s != "" && !Clashes(s, m) && !Contains(rest, s)
    ensures !Contains(m + rest, s)
  {
    hide Clashes;
    forall i | At(m + rest, s, i)
      ensures false
    {
      if i < |m| {
        LeadingCopyClashes(m, rest, s, i);
      } else {
        FoundInRest(m, rest, s, i);
      }
    }
  }

  /** Nor does a character put in front, unless the string then begins the text. */
  lemma AbsentBehindChar(c: char, rest: string, s: string)
    requires !Contains(rest, s) && !(s <= [c] + rest)
    ensures !Contains([c] + rest, s)
  {
    forall i | At([c] + rest, s, i)
      ensures false
    {
      if i > 0 {
        FoundInRest([c], rest, s, i);
      }
    }
  }

  /** The replaced string, or an absent one, does not begin the replaced text either. */
  lemma NoPrefixOfReplace(t: string, old_: string, m: string, s: string)
    requires old_ != "" && m != "" && s != "" && !Clashes(s, m) && !(old_ <= t)
    requires s == old_ || !Contains(t, s)
    ensures !(s <= Replace(t, old_, m))
  {
    hide Replace, Contains;
    if s <= Replace(t, old_, m) {
      PrefixOfReplace(t, old_, m, s);
      if s != old_ {
        AbsentIsNoPrefix(t, s);
      }
    }
  }

  /** Both facts by one induction along the text: `s` is the replaced string or absent. */
  lemma {:induction false} ReplaceStep(t: string, old_: string, m: string, s: string)
    requires old_ != "" && m != "" && s != "" && !Clashes(s, m)
    requires s == old_ || !Contains(t, s)
    ensures !Contains(Replace(t, old_, m), s)
    decreases |t|
  {
    hide Replace, Clashes, Contains;
    if t == "" {
      NothingToReplace(old_, m);
      NothingInEmpty(s);
    } else {
      var k := if old_ <= t then |old_| else 1;
      if s != old_ {
        AbsentFromSuffix(t, s, k);
      }
      ReplaceStep(t[k..], old_, m, s);
      if old_ <= t {
        MatchHead(t, old_, m);
        AbsentBehindCopy(m, Replace(t[k..], old_, m), s);
      } else {
        NoMatchHead(t, old_, m);
        NoPrefixOfReplace(t, old_, m, s);
        AbsentBehindChar(t[0], Replace(t[k..], old_, m), s);
      }
    }
  }

  lemma NothingInEmpty(s: string)
    requires s != ""
    ensures !Contains("", s)
  {
  }
}
