/** `slugify` of scripts/authentik_blueprint_sync.py, over any alphabet. */
module Slug {
  import opened Text

  /** What `isalnum` and `lower` do. */
  datatype Alphabet = Alphabet(isAlnum: char -> bool, lower: string -> string)

  /** Lowering leaves alone what lowering has made, and dashes. */
  ghost predicate Lawful(a: Alphabet) {
    forall s | Lowered(a, s) :: a.lower(s) == s
  }

  ghost predicate Lowered(a: Alphabet, s: string) {
    forall i | 0 <= i < |s| :: s[i] == '-' || exists t :: s[i] in a.lower(t)
  }

  predicate AsciiAlnum(c: char) {
    'a' <= c <= 'z' || 'A' <= c <= 'Z' || '0' <= c <= '9'
  }

  function AsciiLower(s: string): (r: string)
    ensures |r| == |s|
    ensures forall i | 0 <= i < |r| :: r[i] == if 'A' <= s[i] <= 'Z' then ((s[i] as int) + 32) as char else s[i]
  {
    seq(|s|, i requires 0 <= i < |s| => if 'A' <= s[i] <= 'Z' then ((s[i] as int) + 32) as char else s[i])
  }

  const ASCII := Alphabet(AsciiAlnum, AsciiLower)

  lemma AsciiIsLawful()
    ensures Lawful(ASCII)
  {
    forall s | Lowered(ASCII, s)
      ensures ASCII.lower(s) == s
    {
      forall i | 0 <= i < |s|
        ensures !('A' <= s[i] <= 'Z')
      {
        if t :| s[i] in AsciiLower(t) {
          var k :| 0 <= k < |t| && AsciiLower(t)[k] == s[i];
        }
      }
    }
  }

  /** One character of the dashed text. */
  function DashChar(a: Alphabet, c: char): char {
    if a.isAlnum(c) then c else '-'
  }

  function Dashed(a: Alphabet, value: string): (r: string)
    ensures |r| == |a.lower(value)| && forall i | 0 <= i < |r| :: r[i] == DashChar(a, a.lower(value)[i])
  {
    var lowered := a.lower(value);
    seq(|lowered|, i requires 0 <= i < |lowered| => DashChar(a, lowered[i]))
  }

  /** Every run of dashes shortened to one, in a single pass. */
  function Collapse(s: string): string {
    if |s| < 2 then s
    else if s[0] == '-' && s[1] == '-' then Collapse(s[1..])
    else [s[0]] + Collapse(s[1..])
  }

  predicate IsDash(c: char) {
    c == '-'
  }

  function Slugify(a: Alphabet, value: string): string {
    StripRight(StripLeft(Collapse(Dashed(a, value)), IsDash), IsDash)
  }

  predicate NoDoubleDash(s: string) {
    forall i | 0 <= i < |s| - 1 :: s[i] != '-' || s[i + 1] != '-'
  }

  /** Alphanumerics and dashes, no two dashes in a row and none at either end. */
  predicate IsDashed(a: Alphabet, s: string) {
    && (forall i | 0 <= i < |s| :: a.isAlnum(s[i]) || s[i] == '-')
    && NoDoubleDash(s)
    && (s != "" ==> s[0] != '-' && s[|s| - 1] != '-')
  }

  /** The normal form: that, in lower case. */
  predicate IsSlug(a: Alphabet, s: string) {
    IsDashed(a, s) && a.lower(s) == s
  }

  /** The program's own loop: replace double dashes until there are none, then strip. */
  method SlugifyLoop(a: Alphabet, value: string) returns (slug: string)
    ensures slug == Slugify(a, value)
    ensures IsDashed(a, slug)
  {
    slug := "";
    var lowered := a.lower(value);
    for i := 0 to |lowered|
      invariant slug == Dashed(a, value)[..i]
    {
      slug := slug + [DashChar(a, lowered[i])];
    }
    assert slug == Dashed(a, value);
    while Contains(slug, "--")
      invariant Collapse(slug) == Collapse(Dashed(a, value))
      decreases |slug|
    {
      PassKeepsCollapse(slug);
      PassShortens(slug);
      slug := Replace(slug, "--", "-");
    }
    NoPairIsCollapsed(slug);
    slug := StripRight(StripLeft(slug, IsDash), IsDash);
    SlugifyIsDashed(a, value);
  }

  lemma CollapseCons(c: char, s: string)
    ensures Collapse([c] + s) == if c == '-' && s != "" && s[0] == '-' then Collapse(s) else [c] + Collapse(s)
  {
    assert ([c] + s)[1..] == s;
  }

  /** What collapses alike still does behind one more character. */
  lemma CollapseCong(c: char, s: string, t: string)
    requires Collapse(s) == Collapse(t) && (s == "" <==> t == "")
    requires s != "" ==> s[0] == t[0]
    ensures Collapse([c] + s) == Collapse([c] + t)
  {
    CollapseCons(c, s);
    CollapseCons(c, t);
  }

  /** A pass of the loop keeps the one-pass collapse of the text, and its first character. */
  lemma {:induction false} PassKeepsCollapse(s: string)
    ensures var r := Replace(s, "--", "-"); Collapse(r) == Collapse(s) && (r == "" <==> s == "")
    ensures s != "" ==> Replace(s, "--", "-")[0] == s[0]
    decreases |s|
  {
    var r := Replace(s, "--", "-");
    if |s| < 2 {
    } else if "--" <= s {
      PassKeepsCollapse(s[2..]);
      assert s == ['-'] + (['-'] + s[2..]);
      CollapseCons('-', ['-'] + s[2..]);
      CollapseCong('-', s[2..], Replace(s[2..], "--", "-"));
      assert r == ['-'] + Replace(s[2..], "--", "-");
    } else {
      PassKeepsCollapse(s[1..]);
      assert s == [s[0]] + s[1..];
      CollapseCong(s[0], s[1..], Replace(s[1..], "--", "-"));
      assert r == [s[0]] + Replace(s[1..], "--", "-");
    }
  }

  lemma {:induction false} PassNeverLengthens(s: string)
    ensures |Replace(s, "--", "-")| <= |s|
    decreases |s|
  {
    hide Replace;
    if s == "" {
      NothingToReplace("--", "-");
    } else if "--" <= s {
      MatchHead(s, "--", "-");
      PassNeverLengthens(s[2..]);
    } else {
      NoMatchHead(s, "--", "-");
      PassNeverLengthens(s[1..]);
    }
  }

  lemma {:induction false} PassShortens(s: string)
    requires Contains(s, "--")
    ensures |Replace(s, "--", "-")| < |s|
    decreases |s|
  {
    hide Replace, Contains;
    if "--" <= s {
      MatchHead(s, "--", "-");
      PassNeverLengthens(s[2..]);
    } else {
      PairFurtherOn(s);
      NoMatchHead(s, "--", "-");
      PassShortens(s[1..]);
    }
  }

  lemma PairFurtherOn(s: string)
    requires Contains(s, "--") && !("--" <= s)
    ensures s != "" && Contains(s[1..], "--")
  {
    var i :| 0 <= i <= |s| && At(s, "--", i);
    FoundInRest([s[0]], s[1..], "--", i);
    assert s == [s[0]] + s[1..];
  }

  lemma NoDoubleDashIffNoPair(s: string)
    ensures NoDoubleDash(s) <==> !Contains(s, "--")
  {
    forall i | 0 <= i < |s| - 1
      ensures At(s, "--", i) <==> s[i] == '-' && s[i + 1] == '-'
    {
      assert s[i..i + 2] == [s[i], s[i + 1]];
    }
    if Contains(s, "--") {
      var i :| 0 <= i <= |s| && At(s, "--", i);
      assert s[i] == '-' && s[i + 1] == '-';
    } else {
      forall i | 0 <= i < |s| - 1
        ensures s[i] != '-' || s[i + 1] != '-'
      {
        assert !At(s, "--", i);
      }
    }
  }

  lemma {:induction false} NoPairIsCollapsed(s: string)
    requires !Contains(s, "--")
    ensures Collapse(s) == s
    decreases |s|
  {
    NoDoubleDashIffNoPair(s);
    if |s| >= 2 {
      AbsentFromSuffix(s, "--", 1);
      NoPairIsCollapsed(s[1..]);
    }
  }

  lemma {:induction false} CollapseShape(s: string)
    ensures NoDoubleDash(Collapse(s))
    ensures Collapse(s) == "" <==> s == ""
    ensures s != "" ==> Collapse(s)[0] == s[0]
    ensures forall c :: c in Collapse(s) ==> c in s
    decreases |s|
  {
    if |s| >= 2 {
      CollapseShape(s[1..]);
    }
  }

  lemma SlugifyIsDashed(a: Alphabet, value: string)
    ensures IsDashed(a, Slugify(a, value))
    ensures forall c | c in Slugify(a, value) :: c == '-' || c in a.lower(value)
  {
    var d := Dashed(a, value);
    var c := Collapse(d);
    CollapseShape(d);
    StripLeftPart(c, IsDash);
    StripRightPart(StripLeft(c, IsDash), IsDash);
    forall x | x in Slugify(a, value)
      ensures a.isAlnum(x) || x == '-'
      ensures x == '-' || x in a.lower(value)
    {
      assert x in c && x in d;
    }
  }

  lemma SlugifyIsSlug(a: Alphabet, value: string)
    requires Lawful(a)
    ensures IsSlug(a, Slugify(a, value))
  {
    SlugifyIsDashed(a, value);
    var slug := Slugify(a, value);
    forall i | 0 <= i < |slug|
      ensures slug[i] == '-' || exists t :: slug[i] in a.lower(t)
    {
      assert slug[i] in slug;
    }
  }

  /** Exactly the normal forms are left as they are; so slugifying twice is slugifying once. */
  lemma FixedPointsAreSlugs(a: Alphabet, value: string)
    requires Lawful(a)
    ensures Slugify(a, value) == value <==> IsSlug(a, value)
    ensures Slugify(a, Slugify(a, value)) == Slugify(a, value)
  {
    SlugifyIsSlug(a, value);
    SlugIsFixed(a, Slugify(a, value));
    if IsSlug(a, value) {
      SlugIsFixed(a, value);
    }
  }

  lemma SlugIsFixed(a: Alphabet, s: string)
    requires IsSlug(a, s)
    ensures Slugify(a, s) == s
  {
    assert Dashed(a, s) == s;
    NoDoubleDashIffNoPair(s);
    NoPairIsCollapsed(s);
  }

  // ----- Meaning: the slug is the words of the text joined by single dashes -----

  /** The lower-case alphanumeric words of a dashed text: its maximal dash-free runs. */
  function Words(s: string): seq<string> {
    WordsFrom(s, "")
  }

  function WordsFrom(s: string, word: string): seq<string>
    decreases |s|
  {
    if s == "" then (if word == "" then [] else [word])
    else if s[0] == '-' then (if word == "" then [] else [word]) + WordsFrom(s[1..], "")
    else WordsFrom(s[1..], word + [s[0]])
  }

  lemma {:induction false} WordsOfCollapse(s: string, word: string)
    ensures WordsFrom(Collapse(s), word) == WordsFrom(s, word)
    decreases |s|
  {
    if |s| >= 2 {
      CollapseShape(s[1..]);
      if s[0] == '-' && s[1] == '-' {
        WordsOfCollapse(s[1..], word);
        WordsOfCollapse(s[1..], "");
        var c := Collapse(s[1..]);
        assert c[0] == '-';
        assert WordsFrom(s[1..], word) == (if word == "" then [] else [word]) + WordsFrom(s[1..][1..], "");
        assert WordsFrom(s[1..], "") == [] + WordsFrom(s[1..][1..], "");
      } else {
        var t := Collapse(s);
        assert t == [s[0]] + Collapse(s[1..]);
        assert t[1..] == Collapse(s[1..]);
        WordsOfCollapse(s[1..], if s[0] == '-' then "" else word + [s[0]]);
      }
    }
  }

  lemma {:induction false} WordsOfStripLeft(s: string)
    ensures Words(StripLeft(s, IsDash)) == Words(s)
    decreases |s|
  {
    if s != "" && s[0] == '-' {
      WordsOfStripLeft(s[1..]);
    }
  }

  lemma {:induction false} WordsOfTrailingDash(s: string, word: string)
    ensures WordsFrom(s + "-", word) == WordsFrom(s, word)
    decreases |s|
  {
    if s == "" {
      assert (s + "-")[1..] == "";
      assert WordsFrom("", "") == [];
    } else {
      assert (s + "-")[1..] == s[1..] + "-";
      WordsOfTrailingDash(s[1..], if s[0] == '-' then "" else word + [s[0]]);
    }
  }

  lemma {:induction false} WordsOfStripRight(s: string)
    ensures Words(StripRight(s, IsDash)) == Words(s)
    decreases |s|
  {
    if s != "" && s[|s| - 1] == '-' {
      assert s == s[..|s| - 1] + "-";
      WordsOfTrailingDash(s[..|s| - 1], "");
      WordsOfStripRight(s[..|s| - 1]);
    }
  }

  function Joined(words: seq<string>): string {
    if |words| == 0 then ""
    else if |words| == 1 then words[0]
    else words[0] + "-" + Joined(words[1..])
  }

  /** A normal form is rebuilt from its words; `word` is the part of the first word that
      has already been read. */
  lemma {:induction false} SlugFromWords(s: string, word: string)
    requires NoDoubleDash(s) && (s != "" ==> s[|s| - 1] != '-')
    requires s != "" && s[0] == '-' ==> word != ""
    ensures Joined(WordsFrom(s, word)) == word + s
    decreases |s|
  {
    if s == "" {
    } else if s[0] == '-' {
      assert s[1..] != "" && s[1..][0] != '-';
      SlugFromWords(s[1..], "");
      var rest := WordsFrom(s[1..], "");
      WordsNonEmpty(s[1..], "");
      assert ([word] + rest)[1..] == rest;
      assert word + "-" + s[1..] == word + s;
    } else {
      SlugFromWords(s[1..], word + [s[0]]);
      assert word + [s[0]] + s[1..] == word + s;
    }
  }

  lemma {:induction false} WordsNonEmpty(s: string, word: string)
    requires word != "" || (s != "" && s[0] != '-')
    ensures WordsFrom(s, word) != []
    decreases |s|
  {
    if s != "" && s[0] != '-' {
      WordsNonEmpty(s[1..], word + [s[0]]);
    }
  }

  lemma WordsOfSlug(a: Alphabet, value: string)
    ensures Words(Slugify(a, value)) == Words(Dashed(a, value))
  {
    var d := Dashed(a, value);
    WordsOfCollapse(d, "");
    WordsOfStripLeft(Collapse(d));
    WordsOfStripRight(StripLeft(Collapse(d), IsDash));
  }

  /** The slug is the text's words joined by single dashes, so two texts collide exactly
      when they have the same words. */
  lemma SlugIsJoinedWords(a: Alphabet, value: string, other: string)
    ensures Slugify(a, value) == Joined(Words(Dashed(a, value)))
    ensures Slugify(a, value) == Slugify(a, other) <==> Words(Dashed(a, value)) == Words(Dashed(a, other))
  {
    WordsOfSlug(a, value);
    WordsOfSlug(a, other);
    SlugifyIsDashed(a, value);
    SlugifyIsDashed(a, other);
    SlugFromWords(Slugify(a, value), "");
    SlugFromWords(Slugify(a, other), "");
  }
}
