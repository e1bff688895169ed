/** The one family of regular expressions the library uses to recognise an installer name,
        /<prefix>(([0-9]+)\.([0-9]+)(\.([0-9]+))?).<suffix>/
    where <prefix> and <suffix> are literal text. The expression is unanchored, the three digit
    runs are groups 2, 3 and 5 (group 5 is optional), and the unescaped `.` before the suffix
    stands for any single character except a newline.

    `Match` follows the order in which a backtracking matcher (PCRE, behind PHP's `preg_match`)
    explores this expression: start positions from left to right, and at each start the greedy
    `[0-9]+` groups from their longest run down, the optional group before its absence.
    `Valid` says independently which placements of the groups are matches at all, and `Preferred`
    is the order in which the matcher meets them; `MatchSpec` proves that `Match` returns the
    first valid placement in that order, and nothing when there is none. */
module FilePattern {
  import opened Options
  import opened Digits

  datatype Pattern = Pattern(prefix: string, suffix: string)

  /** A placement of the expression in a string: where the match starts and how many digits
      each group takes. `patchLen == 0` means that the optional group `(\.([0-9]+))` did not
      take part (PHP then leaves `$matches[5]` unset). */
  datatype Candidate = Candidate(start: nat, majorLen: nat, minorLen: nat, patchLen: nat)

  /** The groups a match captures, as PHP puts them in `$matches[2]`, `$matches[3]`, `$matches[5]`. */
  datatype Groups = Groups(major: string, minor: string, patch: Option<string>)

  // Positions of the parts of a placement.
  function MajorPos(pat: Pattern, c: Candidate): nat { c.start + |pat.prefix| }
  function MinorPos(pat: Pattern, c: Candidate): nat { MajorPos(pat, c) + c.majorLen + 1 }
  function MinorEnd(pat: Pattern, c: Candidate): nat { MinorPos(pat, c) + c.minorLen }
  /** Position of the character the unescaped `.` consumes. */
  function AnyPos(pat: Pattern, c: Candidate): nat {
    if c.patchLen == 0 then MinorEnd(pat, c) else MinorEnd(pat, c) + 1 + c.patchLen
  }

  predicate DigitsIn(s: string, lo: nat, hi: nat)
    requires lo <= hi <= |s|
  {
    forall j {:trigger IsDigit(s[j])} :: lo <= j < hi ==> IsDigit(s[j])
  }

  predicate LiteralAt(s: string, i: nat, lit: string) {
    i + |lit| <= |s| && forall j :: 0 <= j < |lit| ==> s[i + j] == lit[j]
  }

  /** `.<suffix>` at position t: one character other than a newline, then the suffix. */
  predicate TailAt(s: string, t: nat, suffix: string) {
    t < |s| && s[t] != '\n' && LiteralAt(s, t + 1, suffix)
  }

  /** `<prefix>([0-9]+)\.` with the major group taking n digits, starting at position i. */
  predicate MajorOk(s: string, pat: Pattern, i: nat, n: nat) {
    var p := i + |pat.prefix|;
    LiteralAt(s, i, pat.prefix) && n >= 1 && p + n < |s| && DigitsIn(s, p, p + n) && s[p + n] == '.'
  }

  /** Everything up to the end of the minor group. */
  predicate HeadOk(s: string, pat: Pattern, c: Candidate) {
    MajorOk(s, pat, c.start, c.majorLen)
    && c.minorLen >= 1 && MinorEnd(pat, c) <= |s| && DigitsIn(s, MinorPos(pat, c), MinorEnd(pat, c))
  }

  /** The optional group `(\.([0-9]+))?`. */
  predicate GroupOk(s: string, pat: Pattern, c: Candidate) {
    var r := MinorEnd(pat, c);
    c.patchLen > 0 ==> r + 1 + c.patchLen <= |s| && s[r] == '.' && DigitsIn(s, r + 1, r + 1 + c.patchLen)
  }

  /** c is a match of the expression in s. */
  predicate Valid(s: string, pat: Pattern, c: Candidate) {
    HeadOk(s, pat, c) && GroupOk(s, pat, c) && TailAt(s, AnyPos(pat, c), pat.suffix)
  }

  /** s matches the expression somewhere. */
  ghost predicate Matches(s: string, pat: Pattern) {
    exists c :: Valid(s, pat, c)
  }

  /** a comes before b in the backtracking order: an earlier start; then a longer major group,
      a longer minor group, and a longer patch group, where an absent group (length 0) comes
      after every present one. */
  predicate Preferred(a: Candidate, b: Candidate) {
    a.start < b.start
    || (a.start == b.start
        && (a.majorLen > b.majorLen
            || (a.majorLen == b.majorLen
                && (a.minorLen > b.minorLen
                    || (a.minorLen == b.minorLen && a.patchLen > b.patchLen)))))
  }

  /** Length of the run of digits that starts at position p: how far a greedy `[0-9]+` first reaches. */
  function DigitRun(s: string, p: nat): (n: nat)
    requires p <= |s|
    ensures p + n <= |s| && DigitsIn(s, p, p + n)
    ensures p + n == |s| || !IsDigit(s[p + n])
    decreases |s| - p
  {
    if p < |s| && IsDigit(s[p]) then 1 + DigitRun(s, p + 1) else 0
  }

  lemma RunBound(s: string, p: nat, n: nat)
    requires p + n <= |s| && DigitsIn(s, p, p + n)
    ensures n <= DigitRun(s, p)
  {
  }

  // The matcher: one function per group, each trying its lengths from longest to shortest.

  /** The patch group `([0-9]+)` after the `\.` at position r, followed by `.<suffix>`:
      the largest length in 1..k that lets the rest match, or 0 when none does. */
  function TryPatch(s: string, pat: Pattern, r: nat, k: nat): nat
    decreases k
  {
    if k == 0 then 0
    else if TailAt(s, r + 1 + k, pat.suffix) then k
    else TryPatch(s, pat, r, k - 1)
  }

  /** The minor group taking exactly m digits, then the optional group `(\.([0-9]+))` (tried
      first), or nothing, and then `.<suffix>`. */
  function MinorStep(s: string, pat: Pattern, i: nat, n: nat, m: nat): Option<Candidate> {
    var c := Candidate(i, n, m, 0);
    var r := MinorEnd(pat, c);
    var k := if r < |s| && s[r] == '.' then TryPatch(s, pat, r, DigitRun(s, r + 1)) else 0;
    if k > 0 then Some(c.(patchLen := k))
    else if TailAt(s, r, pat.suffix) then Some(c)
    else None
  }

  /** The minor group with at most m digits, longest first. */
  function TryMinor(s: string, pat: Pattern, i: nat, n: nat, m: nat): Option<Candidate>
    decreases m
  {
    if m == 0 then None
    else
      var found := MinorStep(s, pat, i, n, m);
      if found.Some? then found else TryMinor(s, pat, i, n, m - 1)
  }

  /** The major group taking exactly n digits, then `\.` and the minor group. */
  function MajorStep(s: string, pat: Pattern, i: nat, n: nat): Option<Candidate> {
    var q := i + |pat.prefix| + n + 1;
    if q <= |s| && s[q - 1] == '.' then TryMinor(s, pat, i, n, DigitRun(s, q)) else None
  }

  /** The major group with at most n digits, longest first. */
  function TryMajor(s: string, pat: Pattern, i: nat, n: nat): Option<Candidate>
    decreases n
  {
    if n == 0 then None
    else
      var found := MajorStep(s, pat, i, n);
      if found.Some? then found else TryMajor(s, pat, i, n - 1)
  }

  /** The first match that starts exactly at position i. */
  function StartAt(s: string, pat: Pattern, i: nat): Option<Candidate> {
    if LiteralAt(s, i, pat.prefix) then TryMajor(s, pat, i, DigitRun(s, i + |pat.prefix|)) else None
  }

  /** The first match that starts at position i or later. */
  function Search(s: string, pat: Pattern, i: nat): Option<Candidate>
    requires i <= |s|
    decreases |s| - i
  {
    var found := StartAt(s, pat, i);
    if found.Some? || i == |s| then found else Search(s, pat, i + 1)
  }

  /** `preg_match` of the expression against s. */
  function Match(s: string, pat: Pattern): (r: Option<Candidate>)
    ensures r.Some? ==> Valid(s, pat, r.value)
  {
    SearchSpec(s, pat, 0);
    Search(s, pat, 0)
  }

  /** The captured groups of a match. */
  function GroupsOf(s: string, pat: Pattern, c: Candidate): (g: Groups)
    requires Valid(s, pat, c)
    ensures |g.major| == c.majorLen >= 1 && IsDigits(g.major)
    ensures |g.minor| == c.minorLen >= 1 && IsDigits(g.minor)
    ensures g.patch.Some? <==> c.patchLen > 0
    ensures g.patch.Some? ==> |g.patch.value| == c.patchLen && IsDigits(g.patch.value)
  {
    var p := MajorPos(pat, c);
    var q := MinorPos(pat, c);
    var r := MinorEnd(pat, c);
    Groups(s[p..p + c.majorLen], s[q..r], if c.patchLen == 0 then None else Some(s[r + 1..r + 1 + c.patchLen]))
  }

  /** The text of group 1 as the groups spell it: major, minor and, when present, patch, joined by dots. */
  function VersionText(g: Groups): string {
    g.major + "." + g.minor + if g.patch.Some? then "." + g.patch.value else ""
  }

  /** The groups are the text of the match: the prefix, then group 1, then the character the
      unescaped `.` consumed, then the suffix. */
  lemma MatchedText(s: string, pat: Pattern, c: Candidate)
    requires Valid(s, pat, c)
    ensures var t := AnyPos(pat, c);
      t + 1 + |pat.suffix| <= |s|
      && s[c.start..t + 1 + |pat.suffix|] == pat.prefix + VersionText(GroupsOf(s, pat, c)) + [s[t]] + pat.suffix
  {
    var g := GroupsOf(s, pat, c);
    var p, q, r, t := MajorPos(pat, c), MinorPos(pat, c), MinorEnd(pat, c), AnyPos(pat, c);
    var patch := if g.patch.Some? then "." + g.patch.value else "";
    assert s[r..t] == patch by {
      if c.patchLen > 0 {
        assert s[r..t] == [s[r]] + s[r + 1..t];
      }
    }
    LayoutText(s, c.start, p, q, r, t, pat.prefix, g.major, g.minor, patch, pat.suffix);
  }

  /** Gluing the pieces of a string back together. */
  lemma LayoutText(s: string, a: nat, p: nat, q: nat, r: nat, t: nat,
                   prefix: string, major: string, minor: string, patch: string, suffix: string)
    requires a + |prefix| == p && p + |major| + 1 == q && q + |minor| == r && r + |patch| == t
    requires t + 1 + |suffix| <= |s|
    requires forall j {:trigger prefix[j]} :: 0 <= j < |prefix| ==> s[a + j] == prefix[j]
    requires s[p..q - 1] == major && s[q - 1] == '.' && s[q..r] == minor && s[r..t] == patch
    requires s[t + 1..t + 1 + |suffix|] == suffix
    ensures s[a..t + 1 + |suffix|] == prefix + (major + "." + minor + patch) + [s[t]] + suffix
  {
    assert s[a..p] == prefix;
    var e := t + 1 + |suffix|;
    assert s[a..e] == s[a..p] + s[p..q - 1] + [s[q - 1]] + s[q..r] + s[r..t] + [s[t]] + s[t + 1..e];
  }

  // Correctness of the matcher, group by group.

  lemma {:induction false} TryPatchSpec(s: string, pat: Pattern, r: nat, k: nat)
    ensures TryPatch(s, pat, r, k) <= k
    ensures TryPatch(s, pat, r, k) > 0 ==> TailAt(s, r + 1 + TryPatch(s, pat, r, k), pat.suffix)
    ensures forall t :: r + 1 + TryPatch(s, pat, r, k) < t <= r + 1 + k ==> !TailAt(s, t, pat.suffix)
    decreases k
  {
    if k > 0 && !TailAt(s, r + 1 + k, pat.suffix) {
      TryPatchSpec(s, pat, r, k - 1);
    }
  }

  /** A match whose optional group is present: where that group sits and how long it can be. */
  lemma PatchShape(s: string, pat: Pattern, c: Candidate)
    requires Valid(s, pat, c) && c.patchLen > 0
    ensures MinorEnd(pat, c) < |s| && s[MinorEnd(pat, c)] == '.'
    ensures c.patchLen <= DigitRun(s, MinorEnd(pat, c) + 1)
    ensures TailAt(s, MinorEnd(pat, c) + 1 + c.patchLen, pat.suffix)
  {
    RunBound(s, MinorEnd(pat, c) + 1, c.patchLen);
  }

  /** Making the optional group take part with k digits keeps everything before it. */
  lemma WithPatch(s: string, pat: Pattern, c: Candidate, k: nat)
    requires HeadOk(s, pat, c) && k > 0
    requires MinorEnd(pat, c) + 1 + k <= |s| && s[MinorEnd(pat, c)] == '.'
    requires DigitsIn(s, MinorEnd(pat, c) + 1, MinorEnd(pat, c) + 1 + k)
    requires TailAt(s, MinorEnd(pat, c) + 1 + k, pat.suffix)
    ensures Valid(s, pat, c.(patchLen := k))
  {
    var d := c.(patchLen := k);
    assert MajorPos(pat, d) == MajorPos(pat, c) && MinorEnd(pat, d) == MinorEnd(pat, c);
    assert AnyPos(pat, d) == MinorEnd(pat, c) + 1 + k;
  }

  /** What the attempt at the optional group after a minor group ending at the same place says
      about a match c: its patch group is no longer than the one found (k, 0 for none), and it
      has no patch group only if `.<suffix>` follows the minor group directly. */
  lemma PatchAttempt(s: string, pat: Pattern, c: Candidate, k: nat)
    requires Valid(s, pat, c)
    requires var r := MinorEnd(pat, c);
      k == if r < |s| && s[r] == '.' then TryPatch(s, pat, r, DigitRun(s, r + 1)) else 0
    ensures c.patchLen <= k
    ensures c.patchLen == 0 ==> TailAt(s, MinorEnd(pat, c), pat.suffix)
  {
    if c.patchLen > 0 {
      PatchShape(s, pat, c);
      var r := MinorEnd(pat, c);
      TryPatchSpec(s, pat, r, DigitRun(s, r + 1));
    }
  }

  /** The minor group taking m digits is part of a match exactly when `MinorStep` returns one,
      which is then the match with the longest patch group among those. */
  lemma MinorStepSpec(s: string, pat: Pattern, i: nat, n: nat, m: nat)
    requires HeadOk(s, pat, Candidate(i, n, m, 0))
    ensures MinorStep(s, pat, i, n, m).Some? ==>
      var best := MinorStep(s, pat, i, n, m).value;
      best.start == i && best.majorLen == n && best.minorLen == m && Valid(s, pat, best)
      && forall c :: Valid(s, pat, c) && c.start == i && c.majorLen == n && c.minorLen == m ==> c.patchLen <= best.patchLen
    ensures MinorStep(s, pat, i, n, m).None? ==>
      forall c :: Valid(s, pat, c) && c.start == i && c.majorLen == n ==> c.minorLen != m
  {
    var r := MinorEnd(pat, Candidate(i, n, m, 0));
    MinorStepShape(s, pat, i, n, m, if r < |s| && s[r] == '.' then TryPatch(s, pat, r, DigitRun(s, r + 1)) else 0);
    forall c | Valid(s, pat, c) && c.start == i && c.majorLen == n && c.minorLen == m
      ensures MinorStep(s, pat, i, n, m).Some? && c.patchLen <= MinorStep(s, pat, i, n, m).value.patchLen
    {
      MinorStepFinds(s, pat, c);
    }
  }

  /** A match is found again by the step that tries its own minor length, with a patch group at least as long. */
  lemma MinorStepFinds(s: string, pat: Pattern, c: Candidate)
    requires Valid(s, pat, c)
    ensures var found := MinorStep(s, pat, c.start, c.majorLen, c.minorLen);
      found.Some? && c.patchLen <= found.value.patchLen
  {
    var c0 := Candidate(c.start, c.majorLen, c.minorLen, 0);
    var r := MinorEnd(pat, c0);
    var k := if r < |s| && s[r] == '.' then TryPatch(s, pat, r, DigitRun(s, r + 1)) else 0;
    assert HeadOk(s, pat, c0);
    MinorStepShape(s, pat, c.start, c.majorLen, c.minorLen, k);
    PatchAttempt(s, pat, c, k);
  }

  lemma MinorStepShape(s: string, pat: Pattern, i: nat, n: nat, m: nat, k: nat)
    requires HeadOk(s, pat, Candidate(i, n, m, 0))
    requires var r := MinorEnd(pat, Candidate(i, n, m, 0));
      k == if r < |s| && s[r] == '.' then TryPatch(s, pat, r, DigitRun(s, r + 1)) else 0
    ensures var c0 := Candidate(i, n, m, 0);
      MinorStep(s, pat, i, n, m)
      == if k > 0 then Some(Candidate(i, n, m, k)) else if TailAt(s, MinorEnd(pat, c0), pat.suffix) then Some(c0) else None
    ensures MinorStep(s, pat, i, n, m).Some? ==> Valid(s, pat, MinorStep(s, pat, i, n, m).value)
  {
    var c0 := Candidate(i, n, m, 0);
    var r := MinorEnd(pat, c0);
    if k > 0 {
      TryPatchSpec(s, pat, r, DigitRun(s, r + 1));
      WithPatch(s, pat, c0, k);
    }
  }

  lemma {:induction false} TryMinorSpec(s: string, pat: Pattern, i: nat, n: nat, m: nat)
    requires MajorOk(s, pat, i, n)
    requires MinorPos(pat, Candidate(i, n, 0, 0)) + m <= |s|
    requires DigitsIn(s, MinorPos(pat, Candidate(i, n, 0, 0)), MinorPos(pat, Candidate(i, n, 0, 0)) + m)
    ensures TryMinor(s, pat, i, n, m).Some? ==>
      var best := TryMinor(s, pat, i, n, m).value;
      best.start == i && best.majorLen == n && Valid(s, pat, best)
      && forall c :: Valid(s, pat, c) && c.start == i && c.majorLen == n && c.minorLen <= m ==> !Preferred(c, best)
    ensures TryMinor(s, pat, i, n, m).None? ==>
      forall c :: Valid(s, pat, c) && c.start == i && c.majorLen == n ==> c.minorLen > m
    decreases m
  {
    if m > 0 {
      assert HeadOk(s, pat, Candidate(i, n, m, 0));
      MinorStepSpec(s, pat, i, n, m);
      if MinorStep(s, pat, i, n, m).None? {
        TryMinorSpec(s, pat, i, n, m - 1);
      }
    }
  }

  lemma MajorStepSpec(s: string, pat: Pattern, i: nat, n: nat)
    requires LiteralAt(s, i, pat.prefix) && n >= 1
    requires i + |pat.prefix| + n <= |s| && DigitsIn(s, i + |pat.prefix|, i + |pat.prefix| + n)
    ensures MajorStep(s, pat, i, n).Some? ==>
      var best := MajorStep(s, pat, i, n).value;
      best.start == i && best.majorLen == n && Valid(s, pat, best)
      && forall c :: Valid(s, pat, c) && c.start == i && c.majorLen == n ==> !Preferred(c, best)
    ensures MajorStep(s, pat, i, n).None? ==>
      forall c :: Valid(s, pat, c) && c.start == i ==> c.majorLen != n
  {
    var q := i + |pat.prefix| + n + 1;
    if q <= |s| && s[q - 1] == '.' {
      var run := DigitRun(s, q);
      TryMinorSpec(s, pat, i, n, run);
      forall c | Valid(s, pat, c) && c.start == i && c.majorLen == n
        ensures c.minorLen <= run
      {
        RunBound(s, q, c.minorLen);
      }
    }
  }

  lemma {:induction false} TryMajorSpec(s: string, pat: Pattern, i: nat, n: nat)
    requires LiteralAt(s, i, pat.prefix)
    requires i + |pat.prefix| + n <= |s| && DigitsIn(s, i + |pat.prefix|, i + |pat.prefix| + n)
    ensures TryMajor(s, pat, i, n).Some? ==>
      var best := TryMajor(s, pat, i, n).value;
      best.start == i && Valid(s, pat, best)
      && forall c :: Valid(s, pat, c) && c.start == i && c.majorLen <= n ==> !Preferred(c, best)
    ensures TryMajor(s, pat, i, n).None? ==>
      forall c :: Valid(s, pat, c) && c.start == i ==> c.majorLen > n
    decreases n
  {
    if n > 0 {
      MajorStepSpec(s, pat, i, n);
      if MajorStep(s, pat, i, n).None? {
        TryMajorSpec(s, pat, i, n - 1);
      }
    }
  }

  lemma StartAtSpec(s: string, pat: Pattern, i: nat)
    ensures StartAt(s, pat, i).Some? ==>
      var best := StartAt(s, pat, i).value;
      best.start == i && Valid(s, pat, best)
      && forall c :: Valid(s, pat, c) && c.start == i ==> !Preferred(c, best)
    ensures StartAt(s, pat, i).None? ==>
      forall c :: Valid(s, pat, c) ==> c.start != i
  {
    if LiteralAt(s, i, pat.prefix) {
      var p := i + |pat.prefix|;
      var run := DigitRun(s, p);
      TryMajorSpec(s, pat, i, run);
      forall c | Valid(s, pat, c) && c.start == i
        ensures c.majorLen <= run
      {
        RunBound(s, p, c.majorLen);
      }
    }
  }

  lemma {:induction false} SearchSpec(s: string, pat: Pattern, i: nat)
    requires i <= |s|
    ensures Search(s, pat, i).Some? ==>
      var best := Search(s, pat, i).value;
      best.start >= i && Valid(s, pat, best)
      && forall c :: Valid(s, pat, c) && c.start >= i ==> !Preferred(c, best)
    ensures Search(s, pat, i).None? ==>
      forall c :: Valid(s, pat, c) ==> c.start < i
    decreases |s| - i
  {
    StartAtSpec(s, pat, i);
    if StartAt(s, pat, i).None? && i < |s| {
      SearchSpec(s, pat, i + 1);
    }
  }

  lemma PreferredTotal(a: Candidate, b: Candidate)
    ensures a == b || Preferred(a, b) || Preferred(b, a)
  {
  }

  /** `Match` finds a match exactly when the expression matches somewhere, and then returns the
      placement the backtracking matcher reaches first: every other match comes after it. */
  lemma MatchSpec(s: string, pat: Pattern)
    ensures Match(s, pat).None? <==> !Matches(s, pat)
    ensures Match(s, pat).Some? ==>
      var best := Match(s, pat).value;
      Valid(s, pat, best) && forall c :: Valid(s, pat, c) ==> c == best || Preferred(best, c)
  {
    SearchSpec(s, pat, 0);
    if Match(s, pat).Some? {
      var best := Match(s, pat).value;
      forall c | Valid(s, pat, c)
        ensures c == best || Preferred(best, c)
      {
        PreferredTotal(c, best);
      }
    }
  }

  /** The major group is always the whole run of digits after the prefix: `[0-9]+` is followed
      by a literal `\.`, so no shorter run can be part of a match. */
  lemma MajorIsWholeRun(s: string, pat: Pattern, c: Candidate)
    requires Valid(s, pat, c)
    ensures c.majorLen == DigitRun(s, MajorPos(pat, c))
  {
    RunBound(s, MajorPos(pat, c), c.majorLen);
    assert !IsDigit(s[MajorPos(pat, c) + c.majorLen]);
  }

  /** A match that no other match is preferred over is the one `Match` returns. */
  lemma MatchIsUnbeaten(s: string, pat: Pattern, c: Candidate)
    requires Valid(s, pat, c)
    requires forall d :: Valid(s, pat, d) ==> !Preferred(d, c)
    ensures Match(s, pat) == Some(c)
  {
    MatchSpec(s, pat);
    var best := Match(s, pat).value;
    assert c == best || Preferred(best, c);
  }

  lemma RunUpTo(s: string, p: nat, n: nat)
    requires p <= |s|
    ensures p + n <= |s| && DigitsIn(s, p, p + n) ==> n <= DigitRun(s, p)
  {
    if p + n <= |s| && DigitsIn(s, p, p + n) {
      RunBound(s, p, n);
    }
  }

  /** A match at the start of the string is the one `Match` returns when its minor group takes
      the whole digit run there, and so does its optional group when present; when absent, the
      optional group must have had no way to take part. */
  lemma MatchAtStart(s: string, pat: Pattern, c: Candidate)
    requires Valid(s, pat, c) && c.start == 0
    requires !IsDigit(s[MinorEnd(pat, c)])
    requires c.patchLen > 0 ==> !IsDigit(s[AnyPos(pat, c)])
    requires c.patchLen == 0 ==> s[MinorEnd(pat, c)] != '.' || MinorEnd(pat, c) + 1 == |s|
                                 || !IsDigit(s[MinorEnd(pat, c) + 1])
    ensures Match(s, pat) == Some(c)
  {
    var q, r := MinorPos(pat, c), MinorEnd(pat, c);
    RunBound(s, q, c.minorLen);
    assert DigitRun(s, q) == c.minorLen;
    if c.patchLen > 0 {
      RunBound(s, r + 1, c.patchLen);
      assert DigitRun(s, r + 1) == c.patchLen;
    }
    forall d | Valid(s, pat, d)
      ensures !Preferred(d, c)
    {
      NotAheadOfWholeRuns(s, pat, c, d);
    }
    MatchIsUnbeaten(s, pat, c);
  }

  lemma NotAheadOfWholeRuns(s: string, pat: Pattern, c: Candidate, d: Candidate)
    requires Valid(s, pat, c) && Valid(s, pat, d) && c.start == 0
    requires c.minorLen == DigitRun(s, MinorPos(pat, c))
    requires c.patchLen > 0 ==> c.patchLen == DigitRun(s, MinorEnd(pat, c) + 1)
    requires c.patchLen == 0 ==> s[MinorEnd(pat, c)] != '.' || MinorEnd(pat, c) + 1 == |s|
                                 || !IsDigit(s[MinorEnd(pat, c) + 1])
    ensures !Preferred(d, c)
  {
    if d.start == 0 {
      MajorIsWholeRun(s, pat, d);
      MajorIsWholeRun(s, pat, c);
      assert MinorPos(pat, d) == MinorPos(pat, c);
      RunUpTo(s, MinorPos(pat, d), d.minorLen);
      if d.minorLen == c.minorLen {
        assert MinorEnd(pat, d) == MinorEnd(pat, c);
        RunUpTo(s, MinorEnd(pat, d) + 1, d.patchLen);
      }
    }
  }

  /** A match spans the prefix, at least one digit in each of the two groups with the dot
      between them, the character before the suffix, and the suffix. */
  lemma MatchLength(s: string, pat: Pattern, c: Candidate)
    requires Valid(s, pat, c)
    ensures c.start + |pat.prefix| + 4 + |pat.suffix| <= |s|
  {
  }

  /** A string too short to hold the shortest match has none. */
  lemma ShortStringNoMatch(s: string, pat: Pattern)
    requires |s| < |pat.prefix| + 4 + |pat.suffix|
    ensures Match(s, pat) == None
  {
    MatchSpec(s, pat);
    if Match(s, pat).Some? {
      MatchLength(s, pat, Match(s, pat).value);
    }
  }

  // Names listed with a directory in front of them

  function Shift(c: Candidate, k: nat): Candidate {
    c.(start := c.start + k)
  }

  lemma LiteralShift(dir: string, name: string, i: nat, lit: string)
    ensures LiteralAt(dir + name, |dir| + i, lit) == LiteralAt(name, i, lit)
  {
    var s := dir + name;
    if i + |lit| <= |name| {
      forall j | 0 <= j < |lit|
        ensures (s[|dir| + i + j] == lit[j]) == (name[i + j] == lit[j])
      {
      }
    }
  }

  lemma DigitsShift(dir: string, name: string, lo: nat, hi: nat)
    requires lo <= hi <= |name|
    ensures DigitsIn(dir + name, |dir| + lo, |dir| + hi) == DigitsIn(name, lo, hi)
  {
    var s := dir + name;
    forall j | lo <= j < hi
      ensures s[|dir| + j] == name[j]
    {
    }
    if DigitsIn(s, |dir| + lo, |dir| + hi) {
      forall j | lo <= j < hi
        ensures IsDigit(name[j])
      {
        assert IsDigit(s[|dir| + j]);
      }
    }
  }

  /** Putting text in front of a string moves every match by the length of that text. */
  lemma ValidShift(dir: string, name: string, pat: Pattern, c: Candidate)
    ensures Valid(dir + name, pat, Shift(c, |dir|)) == Valid(name, pat, c)
  {
    var s, k, e := dir + name, |dir|, Shift(c, |dir|);
    var p, q, r, t := MajorPos(pat, c), MinorPos(pat, c), MinorEnd(pat, c), AnyPos(pat, c);
    assert MajorPos(pat, e) == k + p && MinorPos(pat, e) == k + q;
    assert MinorEnd(pat, e) == k + r && AnyPos(pat, e) == k + t;
    LiteralShift(dir, name, c.start, pat.prefix);
    LiteralShift(dir, name, t + 1, pat.suffix);
    if p + c.majorLen < |name| {
      DigitsShift(dir, name, p, p + c.majorLen);
      assert s[k + p + c.majorLen] == name[p + c.majorLen];
    }
    if r <= |name| {
      DigitsShift(dir, name, q, r);
    }
    if r + 1 + c.patchLen <= |name| {
      DigitsShift(dir, name, r + 1, r + 1 + c.patchLen);
      assert s[k + r] == name[r];
    }
    if t < |name| {
      assert s[k + t] == name[t];
    }
  }

  /** When the first character of the prefix does not occur in dir, no match starts inside dir. */
  lemma NoMatchInDirectory(dir: string, name: string, pat: Pattern, c: Candidate)
    requires |pat.prefix| > 0 && pat.prefix[0] !in dir
    requires Valid(dir + name, pat, c)
    ensures c.start >= |dir| && Valid(name, pat, c.(start := c.start - |dir|))
  {
    var s := dir + name;
    assert s[c.start + 0] == pat.prefix[0];
    ValidShift(dir, name, pat, c.(start := c.start - |dir|));
    assert Shift(c.(start := c.start - |dir|), |dir|) == c;
  }

  /** A directory in front of the name moves the match and changes nothing else, as long as the
      prefix cannot start inside the directory. */
  lemma MatchIgnoresDirectory(dir: string, name: string, pat: Pattern)
    requires |pat.prefix| > 0 && pat.prefix[0] !in dir
    ensures Match(dir + name, pat).Some? <==> Match(name, pat).Some?
    ensures Match(name, pat).Some? ==> Match(dir + name, pat) == Some(Shift(Match(name, pat).value, |dir|))
  {
    var s := dir + name;
    MatchSpec(s, pat);
    MatchSpec(name, pat);
    if Match(s, pat).Some? {
      NoMatchInDirectory(dir, name, pat, Match(s, pat).value);
    }
    if Match(name, pat).Some? {
      var b := Match(name, pat).value;
      ValidShift(dir, name, pat, b);
      forall d | Valid(s, pat, d)
        ensures !Preferred(d, Shift(b, |dir|))
      {
        var u := d.(start := d.start - |dir|);
        NoMatchInDirectory(dir, name, pat, d);
        assert u == b || Preferred(b, u);
      }
      MatchIsUnbeaten(s, pat, Shift(b, |dir|));
    }
  }

  lemma GroupsShift(dir: string, name: string, pat: Pattern, c: Candidate)
    requires Valid(name, pat, c)
    ensures Valid(dir + name, pat, Shift(c, |dir|))
    ensures GroupsOf(dir + name, pat, Shift(c, |dir|)) == GroupsOf(name, pat, c)
  {
    ValidShift(dir, name, pat, c);
    var s, k := dir + name, |dir|;
    var p, q, r := MajorPos(pat, c), MinorPos(pat, c), MinorEnd(pat, c);
    assert s[k + p..k + p + c.majorLen] == name[p..p + c.majorLen];
    assert s[k + q..k + r] == name[q..r];
    if c.patchLen > 0 {
      assert s[k + r + 1..k + r + 1 + c.patchLen] == name[r + 1..r + 1 + c.patchLen];
    }
  }
}
