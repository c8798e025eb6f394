/** scripts/masked_inventory.py: values masked down to their shape, long runs shortened, and the
    choice of the entries to mask. What counts as a letter or a digit is left open. */
module Mask {
  import opened Text

  datatype Classes = Classes(isAlpha: char -> bool, isDigit: char -> bool)

  predicate VisibleSpace(c: char) {
    c == ' ' || c == '\n' || c == '\t'
  }

  function MaskChar(classes: Classes, c: char): string {
    if c == ' ' then "·"
    else if c == '\n' then "\\n"
    else if c == '\t' then "\\t"
    else if classes.isAlpha(c) then "a"
    else if classes.isDigit(c) then "9"
    else [c]
  }

  function Masked(classes: Classes, value: string): string {
    if value == "" then "" else Masked(classes, value[..|value| - 1]) + MaskChar(classes, value[|value| - 1])
  }

  // ----- Shortening runs -----

  const LONG := 17

  predicate Maskable(c: char) {
    c == 'a' || c == '9'
  }

  function Decimal(n: nat): string {
    if n < 10 then [(n + 48) as char] else Decimal(n / 10) + [(n % 10 + 48) as char]
  }

  /** What the digits of a text say, read as a decimal number. */
  function Value(s: string): int {
    if s == "" then 0 else 10 * Value(s[..|s| - 1]) + (s[|s| - 1] as int - 48)
  }

  /** The digits read back as the number, without a leading zero. */
  lemma {:induction false} DecimalReads(n: nat)
    ensures Value(Decimal(n)) == n && Decimal(n) != "" && (n > 0 ==> Decimal(n)[0] != '0')
    ensures forall i | 0 <= i < |Decimal(n)| :: '0' <= Decimal(n)[i] <= '9'
    decreases n
  {
    var last := (n % 10 + 48) as char;
    if n < 10 {
      assert [last][..0] == "";
    } else {
      DecimalReads(n / 10);
      assert (Decimal(n / 10) + [last])[..|Decimal(n / 10)|] == Decimal(n / 10);
    }
  }

  /** The length of the run at the head. */
  function RunLength(s: string): (n: nat)
    requires s != ""
    ensures 1 <= n <= |s| && (forall i | 0 <= i < n :: s[i] == s[0]) && (n < |s| ==> s[n] != s[0])
  {
    if |s| > 1 && s[1] == s[0] then 1 + RunLength(s[1..]) else 1
  }

  function Shortened(c: char, n: nat): string {
    [c] + "×" + Decimal(n)
  }

  /** What the regular expression's substitution does, scanning from the left. */
  function Compress(s: string): string
    decreases |s|
  {
    if s == "" then ""
    else if Maskable(s[0]) && RunLength(s) >= LONG then Shortened(s[0], RunLength(s)) + Compress(s[RunLength(s)..])
    else [s[0]] + Compress(s[1..])
  }

  /** The regular expression's substitution. */
  method ShortenRuns(masked: string) returns (r: string)
    ensures r == Compress(masked)
  {
    r := "";
    var i := 0;
    assert masked[0..] == masked;
    while i < |masked|
      invariant 0 <= i <= |masked|
      invariant r + Compress(masked[i..]) == Compress(masked)
    {
      hide Compress, Shortened, RunLength, LongAt;
      var long := LongAt(masked, i);
      var part := if long then Shortened(masked[i], RunLength(masked[i..])) else [masked[i]];
      var next := if long then i + RunLength(masked[i..]) else i + 1;
      ScanStep(masked, i, r, part, next);
      r := r + part;
      i := next;
    }
    assert masked[|masked|..] == "";
  }

  /** What is left to scan, once the scan has taken a long run or one character. */
  lemma ScanStep(s: string, i: nat, r: string, part: string, next: nat)
    requires i < |s| && r + Compress(s[i..]) == Compress(s)
    requires if LongAt(s, i) then part == Shortened(s[i], RunLength(s[i..])) && next == i + RunLength(s[i..])
             else part == [s[i]] && next == i + 1
    ensures next <= |s| && r + part + Compress(s[next..]) == Compress(s)
  {
    hide Compress, Shortened, RunLength;
    CompressAt(s, i, part, next);
    Associate(r, part, Compress(s[next..]));
  }

  predicate LongAt(s: string, i: nat)
    requires i < |s|
  {
    Maskable(s[i]) && RunLength(s[i..]) >= LONG
  }

  lemma CompressAt(s: string, i: nat, part: string, next: nat)
    requires i < |s|
    requires if LongAt(s, i) then part == Shortened(s[i], RunLength(s[i..])) && next == i + RunLength(s[i..])
             else part == [s[i]] && next == i + 1
    ensures next <= |s| && Compress(s[i..]) == part + Compress(s[next..])
  {
    hide Shortened;
    assert s[i..][next - i..] == s[next..];
  }

  lemma Associate(a: string, b: string, c: string)
    ensures a + (b + c) == (a + b) + c
  {
  }

  // ----- The runs, defined without scanning -----

  datatype Run = Run(c: char, n: nat)

  function Repeat(c: char, n: nat): (r: string)
    ensures |r| == n && forall i | 0 <= i < n :: r[i] == c
  {
    seq(n, _ => c)
  }

  function Expand(runs: seq<Run>): string {
    if runs == [] then "" else Repeat(runs[0].c, runs[0].n) + Expand(runs[1..])
  }

  /** Runs are maximal: none is empty, and neighbours differ. */
  ghost predicate Maximal(runs: seq<Run>) {
    && (forall i | 0 <= i < |runs| :: runs[i].n > 0)
    && (forall i | 0 <= i < |runs| - 1 :: runs[i].c != runs[i + 1].c)
  }

  function EncodeRun(r: Run): string {
    if r.c in "a9" && r.n >= 17 then Shortened(r.c, r.n) else Repeat(r.c, r.n)
  }

  function EncodeAll(runs: seq<Run>): string {
    if runs == [] then "" else EncodeRun(runs[0]) + EncodeAll(runs[1..])
  }

  lemma {:induction false} RunAtHead(c: char, n: nat, rest: string)
    requires n > 0 && (rest != "" ==> rest[0] != c)
    ensures RunLength(Repeat(c, n) + rest) == n
    decreases n
  {
    if n > 1 {
      assert (Repeat(c, n) + rest)[1..] == Repeat(c, n - 1) + rest;
      RunAtHead(c, n - 1, rest);
    }
  }

  lemma RepeatHead(c: char, n: nat, rest: string)
    requires n > 0
    ensures Repeat(c, n) + rest == [c] + (Repeat(c, n - 1) + rest)
    ensures (Repeat(c, n) + rest)[0] == c && (Repeat(c, n) + rest)[1..] == Repeat(c, n - 1) + rest
  {
  }

  lemma KeptHead(s: string)
    requires s != "" && !(Maskable(s[0]) && RunLength(s) >= LONG)
    ensures Compress(s) == [s[0]] + Compress(s[1..])
  {
  }

  /** A short run comes out as it is. */
  lemma {:induction false} ShortRun(c: char, n: nat, rest: string)
    requires n < LONG || !Maskable(c)
    requires rest != "" ==> rest[0] != c
    ensures Compress(Repeat(c, n) + rest) == Repeat(c, n) + Compress(rest)
    decreases n
  {
    hide Compress, RunLength;
    if n == 0 {
      assert Repeat(c, 0) + rest == rest;
      assert Repeat(c, 0) + Compress(rest) == Compress(rest);
    } else {
      RunAtHead(c, n, rest);
      RepeatHead(c, n, rest);
      ShortRun(c, n - 1, rest);
      KeptHead(Repeat(c, n) + rest);
      RepeatHead(c, n, Compress(rest));
    }
  }

  /** The substitution rewrites exactly the maximal runs of seventeen or more, each to its
      character, the sign and its length. */
  lemma {:induction false} CompressByRuns(runs: seq<Run>)
    requires Maximal(runs)
    ensures Compress(Expand(runs)) == EncodeAll(runs)
    decreases |runs|
  {
    if runs != [] {
      var r, rest := runs[0], Expand(runs[1..]);
      assert Maximal(runs[1..]) by {
        forall i | 0 <= i < |runs[1..]| - 1
          ensures runs[1..][i].c != runs[1..][i + 1].c
        {
          assert runs[i + 1].c != runs[i + 1 + 1].c;
        }
      }
      CompressByRuns(runs[1..]);
      assert rest != "" ==> rest[0] != r.c by {
        if runs[1..] != [] {
          assert runs[0].c != runs[0 + 1].c && runs[1].n > 0;
        }
      }
      if Maskable(r.c) && r.n >= LONG {
        RunAtHead(r.c, r.n, rest);
        assert (Repeat(r.c, r.n) + rest)[r.n..] == rest;
      } else {
        ShortRun(r.c, r.n, rest);
      }
    }
  }

  /** Every text is made of maximal runs. */
  lemma {:induction false} HasRuns(s: string) returns (runs: seq<Run>)
    ensures Maximal(runs) && Expand(runs) == s
    ensures s != "" ==> runs != [] && runs[0].c == s[0]
    decreases |s|
  {
    if s == "" {
      runs := [];
    } else {
      var n := RunLength(s);
      var rest := HasRuns(s[n..]);
      runs := [Run(s[0], n)] + rest;
      assert runs[1..] == rest;
      assert s == Repeat(s[0], n) + s[n..];
    }
  }

  /** `mask_value`. */
  method MaskValue(classes: Classes, value: string) returns (r: string)
    ensures r == Compress(Masked(classes, value))
    // Of the characters' mask exactly the maximal runs of seventeen or more are rewritten.
    ensures exists runs | Maximal(runs) :: Expand(runs) == Masked(classes, value) && r == EncodeAll(runs)
  {
    var masked := "";
    for i := 0 to |value|
      invariant masked == Masked(classes, value[..i])
    {
      assert value[..i + 1][..i] == value[..i];
      masked := masked + MaskChar(classes, value[i]);
    }
    assert value[..|value|] == value;
    r := ShortenRuns(masked);
    ghost var runs := HasRuns(masked);
    CompressByRuns(runs);
  }

  // ----- What shows in a mask -----

  lemma {:induction false} MaskedChars(classes: Classes, value: string, c: char)
    requires c in Masked(classes, value)
    ensures c in "·\\nta9" || (c in value && !classes.isAlpha(c) && !classes.isDigit(c) && !VisibleSpace(c))
    decreases |value|
  {
    var n := |value| - 1;
    assert value == value[..n] + [value[n]];
    if c in Masked(classes, value[..n]) {
      MaskedChars(classes, value[..n], c);
    } else {
      assert c in MaskChar(classes, value[n]);
    }
  }

  lemma {:induction false} DecimalDigits(n: nat)
    ensures forall c | c in Decimal(n) :: '0' <= c <= '9'
    ensures 1 <= |Decimal(n)| <= n / 10 + 1
    decreases n
  {
    if n >= 10 {
      DecimalDigits(n / 10);
    }
  }

  lemma {:induction false} CompressChars(s: string, c: char)
    requires c in Compress(s)
    ensures c in s || c == '×' || '0' <= c <= '9'
    decreases |s|
  {
    var n := RunLength(s);
    var long := Maskable(s[0]) && n >= LONG;
    var rest := if long then s[n..] else s[1..];
    if c in Compress(rest) {
      CompressChars(rest, c);
    } else if long {
      DecimalDigits(n);
    }
  }

  /** No letter, digit or visible space of the value shows in what is printed for it: every
      character is a sign of the mask, or a character of the value of another kind. */
  lemma MaskHidesText(classes: Classes, value: string, c: char)
    requires c in Compress(Masked(classes, value))
    ensures c in "·\\nta×" || '0' <= c <= '9'
      || (c in value && !classes.isAlpha(c) && !classes.isDigit(c) && !VisibleSpace(c))
  {
    CompressChars(Masked(classes, value), c);
    if c in Masked(classes, value) {
      MaskedChars(classes, value, c);
    }
  }

  /** No run of the text is long enough to be shortened. */
  predicate NoLongRun(s: string) {
    forall i | 0 <= i < |s| :: !LongAt(s, i)
  }

  lemma NoLongRunTail(s: string)
    requires s != ""
    ensures NoLongRun(s) <==> !LongAt(s, 0) && NoLongRun(s[1..])
  {
    hide RunLength;
    forall i | 0 <= i < |s[1..]|
      ensures LongAt(s[1..], i) <==> LongAt(s, i + 1)
    {
      assert s[1..][i..] == s[i + 1..];
    }
    assert forall i | 1 <= i < |s| :: LongAt(s, i) <==> LongAt(s[1..], i - 1);
  }

  /** A long run is replaced by something shorter. */
  lemma LongRunShortens(s: string)
    requires s != "" && LongAt(s, 0)
    ensures 1 <= RunLength(s) <= |s| && |Compress(s)| < RunLength(s) + |Compress(s[RunLength(s)..])|
  {
    assert s[0..] == s;
    DecimalDigits(RunLength(s));
  }

  lemma OneCharKept(s: string)
    requires s != "" && !LongAt(s, 0)
    ensures Compress(s) == [s[0]] + Compress(s[1..])
  {
    assert s[0..] == s;
  }

  /** Shortening makes a text shorter, unless there is nothing to shorten. */
  lemma {:induction false} ShorteningShortens(s: string)
    ensures |Compress(s)| <= |s|
    ensures |Compress(s)| == |s| <==> NoLongRun(s)
    ensures NoLongRun(s) ==> Compress(s) == s
    decreases |s|
  {
    if s != "" {
      hide Compress, LongAt, NoLongRun, RunLength;
      NoLongRunTail(s);
      if LongAt(s, 0) {
        LongRunShortens(s);
        ShorteningShortens(s[RunLength(s)..]);
      } else {
        OneCharKept(s);
        ShorteningShortens(s[1..]);
        assert s == [s[0]] + s[1..];
      }
    }
  }

  lemma {:induction false} MaskedConcat(classes: Classes, a: string, b: string)
    ensures Masked(classes, a + b) == Masked(classes, a) + Masked(classes, b)
    decreases |b|
  {
    hide MaskChar;
    if b == "" {
      assert a + b == a;
    } else {
      var n := |b| - 1;
      assert (a + b)[..|a + b| - 1] == a + b[..n];
      MaskedConcat(classes, a, b[..n]);
    }
  }

  /** A line break and a tab show as a backslash and a letter. */
  lemma MaskedBlanks(classes: Classes, a: string, b: string)
    ensures Masked(classes, a + "\n" + b) == Masked(classes, a) + "\\n" + Masked(classes, b)
    ensures Masked(classes, a + "\t" + b) == Masked(classes, a) + "\\t" + Masked(classes, b)
  {
    assert "\n"[..0] == "" && "\t"[..0] == "";
    MaskedConcat(classes, a + "\n", b);
    MaskedConcat(classes, a, "\n");
    MaskedConcat(classes, a + "\t", b);
    MaskedConcat(classes, a, "\t");
  }

  /** Without line breaks and tabs, the mask has a sign for each character: a dot for a space, an
      'a' for a letter, a nine for a digit, and everything else itself. */
  lemma {:induction false} MaskedByCharacters(classes: Classes, value: string)
    requires '\n' !in value && '\t' !in value
    ensures var m := Masked(classes, value); |m| == |value| && forall i | 0 <= i < |value| ::
      m[i] == (if value[i] == ' ' then '·' else if classes.isAlpha(value[i]) then 'a'
               else if classes.isDigit(value[i]) then '9' else value[i])
    decreases |value|
  {
    if value != "" {
      var n := |value| - 1;
      MaskedByCharacters(classes, value[..n]);
      assert value == value[..n] + [value[n]];
    }
  }

  /** The character stands for itself in a mask. */
  predicate Plain(classes: Classes, c: char) {
    !VisibleSpace(c) && if classes.isAlpha(c) then c == 'a' else classes.isDigit(c) ==> c == '9'
  }

  lemma {:induction false} MaskedLength(classes: Classes, value: string)
    requires forall i | 0 <= i < |value| :: !VisibleSpace(value[i])
    ensures |Masked(classes, value)| == |value|
    ensures Masked(classes, value) == value <==> forall i | 0 <= i < |value| :: Plain(classes, value[i])
    decreases |value|
  {
    if value != "" {
      var n := |value| - 1;
      var front, last := value[..n], value[n];
      MaskedLength(classes, front);
      assert value == front + [last];
      assert Masked(classes, value) == Masked(classes, front) + MaskChar(classes, last);
      assert |MaskChar(classes, last)| == 1;
      if Masked(classes, value) == value {
        assert Masked(classes, value)[..n] == Masked(classes, front) == front;
        assert Masked(classes, value)[n] == MaskChar(classes, last)[0] == last;
      }
    }
  }

  /** The value is its own mask: of letters only 'a', of digits only '9', no visible space, and
      no run of seventeen. */
  ghost predicate OwnMask(classes: Classes, value: string) {
    (forall i | 0 <= i < |value| :: Plain(classes, value[i])) && NoLongRun(value)
  }

  lemma FoundAt(t: string, v: string, i: int)
    requires At(t, v, i)
    ensures 0 <= i && i + |v| <= |t| && forall j | 0 <= j < |v| :: v[j] == t[i + j]
    ensures |t| <= |v| ==> t == v
  {
    assert t[i..i + |v|] == v;
    assert |t| <= |v| ==> t[0..|t|] == t;
  }

  lemma ShownIsOwnMask(classes: Classes, value: string, i: int)
    requires At(Compress(Masked(classes, value)), value, i)
    ensures OwnMask(classes, value)
  {
    hide Compress, Masked, Plain, NoLongRun;
    var masked := Masked(classes, value);
    var r := Compress(masked);
    FoundAt(r, value, i);
    forall j | 0 <= j < |value|
      ensures !VisibleSpace(value[j])
    {
      MaskHidesText(classes, value, r[i + j]);
    }
    ShorteningShortens(masked);
    MaskedLength(classes, value);
  }

  /** A value shows in what is printed for it exactly when it is its own mask. */
  lemma ShowsIffOwnMask(classes: Classes, value: string)
    ensures Contains(Compress(Masked(classes, value)), value) <==> OwnMask(classes, value)
    ensures OwnMask(classes, value) ==> Compress(Masked(classes, value)) == value
  {
    hide Compress, Masked, NoLongRun;
    var r := Compress(Masked(classes, value));
    if OwnMask(classes, value) {
      MaskedLength(classes, value);
      ShorteningShortens(value);
      assert At(value, value, 0);
    }
    if Contains(r, value) {
      var i :| 0 <= i <= |r| && At(r, value, i);
      ShownIsOwnMask(classes, value, i);
    }
  }

  // ----- Where the signs stand -----

  /** The letters 'n' and 't' come only after a backslash, digits other than '9' only in a length. */
  predicate MayFollow(classes: Classes, c: char, d: char) {
    && (d in "nt" && classes.isAlpha(d) ==> c == '\\')
    && ('0' <= d <= '8' && classes.isDigit(d) ==> c == '×' || '0' <= c <= '9')
  }

  predicate InPlace(classes: Classes, s: string) {
    forall i | 0 < i < |s| :: MayFollow(classes, s[i - 1], s[i])
  }

  lemma InPlaceJoin(classes: Classes, s: string, t: string)
    requires InPlace(classes, s) && InPlace(classes, t)
    requires s != "" && t != "" ==> MayFollow(classes, s[|s| - 1], t[0])
    ensures InPlace(classes, s + t)
  {
    hide MayFollow;
    forall i | 0 < i < |s + t|
      ensures MayFollow(classes, (s + t)[i - 1], (s + t)[i])
    {
      if i > |s| {
        assert MayFollow(classes, t[i - |s| - 1], t[i - |s|]);
      }
    }
  }

  /** No digit that would have to stand in a length. */
  predicate NoLengths(classes: Classes, s: string) {
    forall i | 0 <= i < |s| && '0' <= s[i] <= '8' :: !classes.isDigit(s[i])
  }

  lemma {:induction false} MaskedInPlace(classes: Classes, value: string)
    ensures InPlace(classes, Masked(classes, value)) && NoLengths(classes, Masked(classes, value))
    decreases |value|
  {
    if value != "" {
      var n := |value| - 1;
      MaskedInPlace(classes, value[..n]);
      InPlaceJoin(classes, Masked(classes, value[..n]), MaskChar(classes, value[n]));
    }
  }

  lemma {:induction false} DecimalInPlace(classes: Classes, n: nat)
    ensures InPlace(classes, Decimal(n))
    decreases n
  {
    if n >= 10 {
      DecimalInPlace(classes, n / 10);
      DecimalDigits(n / 10);
      InPlaceJoin(classes, Decimal(n / 10), [(n % 10 + 48) as char]);
    }
  }

  lemma ShortenedInPlace(classes: Classes, c: char, n: nat)
    ensures InPlace(classes, Shortened(c, n))
    ensures var r := Shortened(c, n); r != "" && r[0] == c && '0' <= r[|r| - 1] <= '9'
  {
    DecimalInPlace(classes, n);
    hide Decimal;
    DecimalDigits(n);
    assert Decimal(n)[0] in Decimal(n) && Decimal(n)[|Decimal(n)| - 1] in Decimal(n);
    InPlaceJoin(classes, [c] + "×", Decimal(n));
  }

  /** What comes after a long run may come after its length. */
  lemma MayFollowLength(classes: Classes, s: string)
    requires s != "" && LongAt(s, 0) && InPlace(classes, s) && NoLengths(classes, s)
    ensures var n := RunLength(s); var r := Shortened(s[0], n);
      n < |s| ==> MayFollow(classes, r[|r| - 1], s[n])
  {
    hide Shortened;
    assert s[0..] == s;
    var n := RunLength(s);
    ShortenedInPlace(classes, s[0], n);
    if n < |s| {
      assert MayFollow(classes, s[n - 1], s[n]) && s[n - 1] == s[0];
    }
  }

  /** Shortening keeps the signs where they belong. */
  lemma {:induction false} CompressInPlace(classes: Classes, s: string)
    requires InPlace(classes, s) && NoLengths(classes, s)
    ensures InPlace(classes, Compress(s))
    ensures if s == "" then Compress(s) == "" else Compress(s) != "" && Compress(s)[0] == s[0]
    decreases |s|
  {
    hide MayFollow, RunLength, Shortened, Compress, InPlace, NoLengths, LongAt;
    if s == "" {
      EmptyCompress();
    } else {
      var n := RunLength(s);
      assert s[0..] == s;
      if LongAt(s, 0) {
        InPlaceTail(classes, s, n);
        CompressInPlace(classes, s[n..]);
        ShortenedInPlace(classes, s[0], n);
        MayFollowLength(classes, s);
        CompressAt(s, 0, Shortened(s[0], n), n);
        InPlaceJoin(classes, Shortened(s[0], n), Compress(s[n..]));
      } else {
        InPlaceTail(classes, s, 1);
        CompressInPlace(classes, s[1..]);
        CompressAt(s, 0, [s[0]], 1);
        HeadInPlace(classes, s);
        InPlaceJoin(classes, [s[0]], Compress(s[1..]));
      }
    }
  }

  lemma EmptyCompress()
    ensures Compress("") == ""
  {
  }

  lemma HeadInPlace(classes: Classes, s: string)
    requires s != "" && InPlace(classes, s)
    ensures InPlace(classes, [s[0]]) && (|s| > 1 ==> MayFollow(classes, s[0], s[1]))
  {
    hide MayFollow;
    assert |s| > 1 ==> MayFollow(classes, s[1 - 1], s[1]);
  }

  lemma InPlaceTail(classes: Classes, s: string, n: nat)
    requires n <= |s| && InPlace(classes, s) && NoLengths(classes, s)
    ensures InPlace(classes, s[n..]) && NoLengths(classes, s[n..])
  {
    hide MayFollow;
    forall i | 0 < i < |s[n..]|
      ensures MayFollow(classes, s[n..][i - 1], s[n..][i])
    {
      assert MayFollow(classes, s[n + i - 1], s[n + i]);
    }
  }

  // ----- The mask tells no more than the shape -----

  /** The two characters are the same visible space, both letters, both digits, or the same. */
  predicate SameClass(classes: Classes, c: char, d: char) {
    c == d
    || (!VisibleSpace(c) && !VisibleSpace(d)
        && classes.isAlpha(c) == classes.isAlpha(d)
        && (classes.isAlpha(c) || (classes.isDigit(c) && classes.isDigit(d))))
  }

  predicate SameShape(classes: Classes, v: string, w: string) {
    |v| == |w| && forall i | 0 <= i < |v| :: SameClass(classes, v[i], w[i])
  }

  lemma {:induction false} SameShapeSameMask(classes: Classes, v: string, w: string)
    requires SameShape(classes, v, w)
    ensures Masked(classes, v) == Masked(classes, w)
    ensures Compress(Masked(classes, v)) == Compress(Masked(classes, w))
    decreases |v|
  {
    if v != "" {
      var n := |v| - 1;
      assert SameShape(classes, v[..n], w[..n]);
      SameShapeSameMask(classes, v[..n], w[..n]);
      assert SameClass(classes, v[n], w[n]);
    }
  }

  // ----- Choosing what to mask -----

  const VAULT := "vault_"
  const MIN_VAULT_VALUE := 8

  predicate VaultValue(inventory: map<string, string>, v: string) {
    exists key | key in inventory :: VAULT <= key && inventory[key] == v && |v| >= MIN_VAULT_VALUE
  }

  /** The entry is a vault entry or holds a vault value. */
  ghost predicate Selected(inventory: map<string, string>, key: string)
    requires key in inventory
  {
    VAULT <= key || exists v | VaultValue(inventory, v) :: Contains(inventory[key], v)
  }

  ghost function Shown(classes: Classes, inventory: map<string, string>, key: string): string
    requires key in inventory
  {
    if Selected(inventory, key) then Compress(Masked(classes, inventory[key])) else inventory[key]
  }

  /** The loop of `main`: overwrites the selected entries in place. */
  method MaskInventory(classes: Classes, inventory: map<string, string>) returns (masked: map<string, string>)
    ensures masked.Keys == inventory.Keys
    ensures forall key | key in inventory :: masked[key] == Shown(classes, inventory, key)
    // A vault value can show only in an entry that was masked, and if it looks like a mask.
    ensures forall key, v | key in inventory && VaultValue(inventory, v) && Contains(masked[key], v) ::
      Selected(inventory, key) && LooksMasked(classes, v)
    // In its own entry it shows exactly when it is its own mask.
    ensures forall key | key in inventory && VAULT <= key ::
      Contains(masked[key], inventory[key]) <==> OwnMask(classes, inventory[key])
  {
    hide Compress, Masked, Contains, OwnMask, LooksMasked;
    var vaultValues := set key | key in inventory && VAULT <= key && |inventory[key]| >= MIN_VAULT_VALUE ::
      inventory[key];
    assert forall v :: v in vaultValues <==> VaultValue(inventory, v);
    masked := inventory;
    var left := inventory.Keys;
    while left != {}
      invariant masked.Keys == inventory.Keys && left <= inventory.Keys
      invariant forall key | key in left :: masked[key] == inventory[key]
      invariant forall key | key in inventory && key !in left :: masked[key] == Shown(classes, inventory, key)
      decreases left
    {
      var key :| key in left;
      left := left - {key};
      var rendered := masked[key];
      if VAULT <= key || exists v | v in vaultValues :: Contains(rendered, v) {
        var hidden := MaskValue(classes, rendered);
        masked := masked[key := hidden];
      }
    }
    forall key, v | key in inventory && VaultValue(inventory, v) && Contains(masked[key], v)
      ensures Selected(inventory, key) && LooksMasked(classes, v)
    {
      WhatShows(classes, inventory, key, v);
    }
    forall key | key in inventory && VAULT <= key
      ensures Contains(masked[key], inventory[key]) <==> OwnMask(classes, inventory[key])
    {
      ShowsIffOwnMask(classes, inventory[key]);
    }
  }

  /** Every character is a sign of the mask, or neither letter nor digit nor visible space; and
      the signs come after what they go with. */
  predicate LooksMasked(classes: Classes, v: string) {
    && (forall i | 0 <= i < |v| :: v[i] in "·\\nta×" || '0' <= v[i] <= '9'
          || (!classes.isAlpha(v[i]) && !classes.isDigit(v[i]) && !VisibleSpace(v[i])))
    && InPlace(classes, v)
  }

  lemma WhatShows(classes: Classes, inventory: map<string, string>, key: string, v: string)
    requires key in inventory && VaultValue(inventory, v) && Contains(Shown(classes, inventory, key), v)
    ensures Selected(inventory, key) && LooksMasked(classes, v)
  {
    hide Compress, Masked;
    var shown := Shown(classes, inventory, key);
    var i :| 0 <= i <= |shown| && At(shown, v, i);
    FoundAt(shown, v, i);
    forall j | 0 <= j < |v|
      ensures v[j] in "·\\nta×" || '0' <= v[j] <= '9'
        || (!classes.isAlpha(v[j]) && !classes.isDigit(v[j]) && !VisibleSpace(v[j]))
    {
      MaskHidesText(classes, inventory[key], shown[i + j]);
    }
    hide MayFollow;
    MaskedInPlace(classes, inventory[key]);
    CompressInPlace(classes, Masked(classes, inventory[key]));
    forall j | 0 < j < |v|
      ensures MayFollow(classes, v[j - 1], v[j])
    {
      assert MayFollow(classes, shown[i + j - 1], shown[i + j]);
    }
  }

  /** So a secret of eight letters 'n' shows nowhere. */
  lemma SecretOfLetters(classes: Classes, inventory: map<string, string>, key: string)
    requires classes.isAlpha('n') && key in inventory && VaultValue(inventory, "nnnnnnnn")
    ensures !Contains(Shown(classes, inventory, key), "nnnnnnnn")
  {
    hide Shown, Contains;
    var v := "nnnnnnnn";
    assert !MayFollow(classes, v[0], v[1]);
    if Contains(Shown(classes, inventory, key), v) {
      WhatShows(classes, inventory, key, v);
    }
  }

  /** Eight dashes for a secret are printed as they are. */
  lemma SecretOfDashes(classes: Classes)
    requires !classes.isAlpha('-') && !classes.isDigit('-')
    ensures var inventory := map["vault_x" := "--------"];
      VaultValue(inventory, "--------") && Shown(classes, inventory, "vault_x") == "--------"
  {
    var inventory := map["vault_x" := "--------"];
    assert VAULT <= "vault_x" && "vault_x" in inventory;
    ShowsIffOwnMask(classes, "--------");
  }
}
