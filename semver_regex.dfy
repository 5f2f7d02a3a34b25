/** The regular expression `Version.SemverRegex` (Version.cs:9), as .NET's
    `Regex.Match` applies it: the pattern has no `^`/`$` anchors, so the
    engine tries each start position from the left and, at a start, takes the
    first alternative that matches and the longest repetition (greedy).
    Everything after the patch number is optional, so once the three numbers
    match the rest of the pattern can always succeed and no choice is ever
    undone: the recognisers below make each choice once.

    Every recogniser takes the text still to be read and returns what it
    consumed together with what follows, so `token + rest == input`. */
module SemverRegex {
  import opened Common
  import opened Text

  // ---------------------------------------------------------------------
  // The languages of the pattern's parts

  /** `0|[1-9]\d*`: a number without leading zeros. */
  predicate IsNumericIdentifier(u: string) {
    u == "0" || (u != [] && IsNonZeroDigit(u[0]) && AllDigits(u))
  }

  /** `0|[1-9]\d*|\d*[a-zA-Z-][0-9a-zA-Z-]*`: a numeric identifier, or a
      non-empty run of `[0-9a-zA-Z-]` that is not all digits. */
  predicate IsPreReleaseIdentifier(u: string) {
    IsNumericIdentifier(u) || (u != [] && AllIdentChars(u) && !AllDigits(u))
  }

  /** The `prerelease` group: dot-separated pre-release identifiers. */
  predicate IsPreRelease(p: string) {
    var parts := Split(p, '.');
    forall k | 0 <= k < |parts| :: IsPreReleaseIdentifier(parts[k])
  }

  /** The `buildmetadata` group: dot-separated non-empty runs of `[0-9a-zA-Z-]`. */
  predicate IsBuildMetadata(b: string) {
    var parts := Split(b, '.');
    forall k | 0 <= k < |parts| :: parts[k] != [] && AllIdentChars(parts[k])
  }

  /** The five named groups of a match; a group that did not take part is `""`,
      as `Group.Value` is for an unmatched group. */
  datatype Groups = Groups(major: string, minor: string, patch: string, preRelease: string, buildMetadata: string)

  predicate WellFormed(g: Groups) {
    && IsNumericIdentifier(g.major)
    && IsNumericIdentifier(g.minor)
    && IsNumericIdentifier(g.patch)
    && (g.preRelease == "" || IsPreRelease(g.preRelease))
    && (g.buildMetadata == "" || IsBuildMetadata(g.buildMetadata))
  }

  /** The text a match with these groups covers (`Match.Value`). */
  function Render(g: Groups): string {
    g.major + "." + g.minor + "." + g.patch + Suffix(g)
  }

  /** The optional part of the match text: `-PRERELEASE` and `+BUILD`. */
  function Suffix(g: Groups): string {
    (if g.preRelease == "" then "" else "-" + g.preRelease)
      + (if g.buildMetadata == "" then "" else "+" + g.buildMetadata)
  }

  /** The texts `.id1.id2...` that a `(?:\.X)*` repetition consumes. */
  function Dotted(ids: seq<string>): string {
    if ids == [] then "" else "." + ids[0] + Dotted(ids[1..])
  }

  /** One more repetition: `.id` in front of what the rest consumed. */
  lemma DottedCons(id: string, ids: seq<string>, rest: string, rest': string, t: string)
    requires t == "." + (id + rest) && Dotted(ids) + rest' == rest
    ensures Dotted([id] + ids) + rest' == t
  {
    var r := [id] + ids;
    assert r[0] == id && r[1..] == ids;
    calc {
      Dotted(r) + rest';
      ("." + id + Dotted(ids)) + rest';
      "." + (id + (Dotted(ids) + rest'));
    }
  }

  lemma {:induction false} JoinDotted(first: string, ids: seq<string>)
    ensures Join([first] + ids, '.') == first + Dotted(ids)
    decreases |ids|
  {
    if ids != [] {
      JoinDotted(ids[0], ids[1..]);
      assert ([first] + ids)[1..] == [ids[0]] + ids[1..];
    }
  }

  // ---------------------------------------------------------------------
  // The recognisers

  /** `\d*`, greedy. */
  function Digits(t: string): (r: (string, string))
    ensures r.0 + r.1 == t && AllDigits(r.0)
    ensures r.1 == [] || !IsDigit(r.1[0])
  {
    if t != [] && IsDigit(t[0]) then
      var (d, rest) := Digits(t[1..]);
      assert [t[0]] + d + rest == [t[0]] + t[1..] == t;
      ([t[0]] + d, rest)
    else ([], t)
  }

  /** `[0-9a-zA-Z-]*`, greedy. */
  function IdentChars(t: string): (r: (string, string))
    ensures r.0 + r.1 == t && AllIdentChars(r.0)
    ensures r.1 == [] || !IsIdentChar(r.1[0])
    ensures t != [] && IsIdentChar(t[0]) ==> r.0 != []
  {
    if t != [] && IsIdentChar(t[0]) then
      var (w, rest) := IdentChars(t[1..]);
      assert [t[0]] + w + rest == [t[0]] + t[1..] == t;
      ([t[0]] + w, rest)
    else ([], t)
  }

  /** `0|[1-9]\d*`: a `0` alone, or a non-zero digit and every digit after it. */
  function NumericIdentifier(t: string): (r: Option<(string, string)>)
    ensures r.Some? <==> t != [] && IsDigit(t[0])
    ensures r.Some? ==> r.value.0 + r.value.1 == t && IsNumericIdentifier(r.value.0)
    ensures r.Some? && t[0] == '0' ==> r.value.0 == "0"
    ensures r.Some? && t[0] != '0' ==> r.value.1 == [] || !IsDigit(r.value.1[0])
  {
    if t == [] then None
    else if t[0] == '0' then
      assert "0" + t[1..] == t;
      Some(("0", t[1..]))
    else if IsNonZeroDigit(t[0]) then
      var (d, rest) := Digits(t[1..]);
      assert [t[0]] + d + rest == t;
      Some(([t[0]] + d, rest))
    else None
  }

  /** `0|[1-9]\d*|\d*[a-zA-Z-][0-9a-zA-Z-]*`, first matching alternative.
      On a digit one of the first two alternatives always matches, so the
      third is only reached on a letter or hyphen, where its `\d*` is empty. */
  function PreReleaseIdentifier(t: string): (r: Option<(string, string)>)
    ensures r.Some? <==> t != [] && IsIdentChar(t[0])
    ensures r.Some? ==> r.value.0 + r.value.1 == t && IsPreReleaseIdentifier(r.value.0)
    ensures t != [] && IsDigit(t[0]) ==> r == NumericIdentifier(t)
    ensures r.Some? && !IsDigit(t[0]) ==> r.value.1 == [] || !IsIdentChar(r.value.1[0])
  {
    if t == [] then None
    else if IsDigit(t[0]) then NumericIdentifier(t)
    else if IsLetterOrHyphen(t[0]) then
      var (w, rest) := IdentChars(t[1..]);
      assert [t[0]] + w + rest == t;
      LetterLedIdentifier(t[0], w);
      Some(([t[0]] + w, rest))
    else None
  }

  /** `(?:\.ID)*`, greedy: the identifiers taken and what follows. An
      iteration whose dot is not followed by an identifier fails, and the
      repetition stops before that dot. */
  function DottedIdentifiers(t: string): (r: (seq<string>, string))
    ensures Dotted(r.0) + r.1 == t
    ensures forall k | 0 <= k < |r.0| :: IsPreReleaseIdentifier(r.0[k])
    ensures !(|r.1| >= 2 && r.1[0] == '.' && IsIdentChar(r.1[1]))
    ensures r.0 != [] ==> PreReleaseIdentifier(r.0[|r.0| - 1] + r.1) == Some((r.0[|r.0| - 1], r.1))
    decreases |t|
  {
    if t != [] && t[0] == '.' then
      match PreReleaseIdentifier(t[1..])
      case Some((id, rest)) =>
        var (ids, rest') := DottedIdentifiers(rest);
        var r := [id] + ids;
        assert t == "." + (id + rest);
        DottedCons(id, ids, rest, rest', t);
        assert forall k | 1 <= k < |r| :: r[k] == ids[k - 1];
        (r, rest')
      case None => ([], t)
    else ([], t)
  }

  /** `(?:\.[0-9a-zA-Z-]+)*`, greedy. */
  function DottedRuns(t: string): (r: (seq<string>, string))
    ensures Dotted(r.0) + r.1 == t
    ensures forall k | 0 <= k < |r.0| :: r.0[k] != [] && AllIdentChars(r.0[k])
    ensures !(|r.1| >= 2 && r.1[0] == '.' && IsIdentChar(r.1[1]))
    ensures r.0 != [] ==> r.1 == [] || !IsIdentChar(r.1[0])
    decreases |t|
  {
    if |t| >= 2 && t[0] == '.' && IsIdentChar(t[1]) then
      var (w, rest) := IdentChars(t[1..]);
      var (ws, rest') := DottedRuns(rest);
      var r := [w] + ws;
      assert t == "." + (w + rest);
      DottedCons(w, ws, rest, rest', t);
      assert forall k | 1 <= k < |r| :: r[k] == ws[k - 1];
      (r, rest')
    else ([], t)
  }

  /** A letter or hyphen followed by identifier characters is a pre-release
      identifier that is not numeric. */
  lemma LetterLedIdentifier(c: char, w: string)
    requires IsLetterOrHyphen(c) && AllIdentChars(w)
    ensures IsPreReleaseIdentifier([c] + w)
  {
    var u := [c] + w;
    assert u[0] == c && !IsDigit(u[0]);
    assert forall k | 1 <= k < |u| :: u[k] == w[k - 1];
  }

  /** An optional group `SIGN first dotted`: its value and the text after it
      rebuild the input. */
  lemma GroupCons(sign: char, first: string, dotted: string, rest: string, rest': string, t: string)
    requires t == [sign] + (first + rest) && dotted + rest' == rest && first != []
    ensures first + dotted != "" && [sign] + (first + dotted) + rest' == t
  {
    calc {
      [sign] + (first + dotted) + rest';
      [sign] + (first + (dotted + rest'));
    }
  }

  /** `(?:-(?<prerelease>ID(?:\.ID)*))?`: the group's value (`""` when the
      optional part is skipped) and what follows. */
  function PreReleaseGroup(t: string): (r: (string, string))
    ensures r.0 == "" ==> r.1 == t
    ensures r.0 != "" ==> "-" + r.0 + r.1 == t
    ensures r.0 != "" <==> |t| >= 2 && t[0] == '-' && IsIdentChar(t[1])
    ensures r.0 != "" ==> !(|r.1| >= 2 && r.1[0] == '.' && IsIdentChar(r.1[1]))
  {
    if t != [] && t[0] == '-' then
      match PreReleaseIdentifier(t[1..])
      case Some((first, rest)) =>
        var (ids, rest') := DottedIdentifiers(rest);
        JoinDotted(first, ids);
        assert t == "-" + (first + rest);
        GroupCons('-', first, Dotted(ids), rest, rest', t);
        (Join([first] + ids, '.'), rest')
      case None => ("", t)
    else ("", t)
  }

  /** `(?:\+(?<buildmetadata>[0-9a-zA-Z-]+(?:\.[0-9a-zA-Z-]+)*))?`. */
  function BuildGroup(t: string): (r: (string, string))
    ensures r.0 == "" ==> r.1 == t
    ensures r.0 != "" ==> "+" + r.0 + r.1 == t
    ensures r.0 != "" <==> |t| >= 2 && t[0] == '+' && IsIdentChar(t[1])
    ensures r.0 != "" ==> !(|r.1| >= 2 && r.1[0] == '.' && IsIdentChar(r.1[1]))
    ensures r.0 != "" ==> r.1 == [] || !IsIdentChar(r.1[0])
  {
    if |t| >= 2 && t[0] == '+' && IsIdentChar(t[1]) then
      var (first, rest) := IdentChars(t[1..]);
      var (runs, rest') := DottedRuns(rest);
      JoinDotted(first, runs);
      assert t == "+" + (first + rest);
      GroupCons('+', first, Dotted(runs), rest, rest', t);
      (Join([first] + runs, '.'), rest')
    else ("", t)
  }

  /** A captured `prerelease` group is made of pre-release identifiers. */
  lemma PreReleaseGroupWellFormed(t: string)
    ensures PreReleaseGroup(t).0 == "" || IsPreRelease(PreReleaseGroup(t).0)
  {
    if t != [] && t[0] == '-' && PreReleaseIdentifier(t[1..]).Some? {
      var (first, rest) := PreReleaseIdentifier(t[1..]).value;
      var (ids, rest') := DottedIdentifiers(rest);
      PreReleaseSplits(first, ids);
    }
  }

  /** A captured `buildmetadata` group is made of dot-separated runs. */
  lemma BuildGroupWellFormed(t: string)
    ensures BuildGroup(t).0 == "" || IsBuildMetadata(BuildGroup(t).0)
  {
    if |t| >= 2 && t[0] == '+' && IsIdentChar(t[1]) {
      var (first, rest) := IdentChars(t[1..]);
      var (runs, rest') := DottedRuns(rest);
      BuildMetadataSplits(first, runs);
    }
  }

  lemma PreReleaseSplits(first: string, ids: seq<string>)
    requires IsPreReleaseIdentifier(first)
    requires forall k | 0 <= k < |ids| :: IsPreReleaseIdentifier(ids[k])
    ensures Join([first] + ids, '.') != "" && IsPreRelease(Join([first] + ids, '.'))
  {
    var parts := [first] + ids;
    forall k | 0 <= k < |parts| ensures IsPreReleaseIdentifier(parts[k]) {
      if k > 0 {
        assert parts[k] == ids[k - 1];
      }
    }
    forall k | 0 <= k < |parts| ensures '.' !in parts[k] {
      IdentifierHasNoDot(parts[k]);
    }
    SplitJoin(parts, '.');
    JoinDotted(first, ids);
    assert first != [];
  }

  lemma BuildMetadataSplits(first: string, runs: seq<string>)
    requires first != [] && AllIdentChars(first)
    requires forall k | 0 <= k < |runs| :: runs[k] != [] && AllIdentChars(runs[k])
    ensures Join([first] + runs, '.') != "" && IsBuildMetadata(Join([first] + runs, '.'))
  {
    var parts := [first] + runs;
    forall k | 0 <= k < |parts| ensures parts[k] != [] && AllIdentChars(parts[k]) {
      if k > 0 {
        assert parts[k] == runs[k - 1];
      }
    }
    forall k | 0 <= k < |parts| ensures '.' !in parts[k] {
      RunHasNoDot(parts[k]);
    }
    SplitJoin(parts, '.');
    JoinDotted(first, runs);
  }

  lemma RunHasNoDot(u: string)
    requires AllIdentChars(u)
    ensures '.' !in u
  {
    assert forall i | 0 <= i < |u| :: IsIdentChar(u[i]);
  }

  lemma IdentifierHasNoDot(u: string)
    requires IsPreReleaseIdentifier(u)
    ensures '.' !in u
  {
    assert forall i | 0 <= i < |u| :: IsIdentChar(u[i]);
  }

  /** The pattern tried at the start of `t`: the groups and the text after
      the match, or `None` when no match starts here. */
  function MatchPrefix(t: string): (r: Option<(Groups, string)>)
    ensures r.Some? ==> |r.value.1| + 5 <= |t|
  {
    match NumericIdentifier(t)
    case None => None
    case Some((major, r1)) =>
      if r1 == [] || r1[0] != '.' then None
      else
        match NumericIdentifier(r1[1..])
        case None => None
        case Some((minor, r2)) =>
          if r2 == [] || r2[0] != '.' then None
          else
            match NumericIdentifier(r2[1..])
            case None => None
            case Some((patch, r3)) =>
              var (pre, r4) := PreReleaseGroup(r3);
              var (build, r5) := BuildGroup(r4);
              Some((Groups(major, minor, patch, pre, build), r5))
  }

  /** A match's groups are well formed and spell out the text it covers:
      what the pattern consumed followed by what it left is the input. */
  lemma MatchPrefixSound(t: string)
    requires MatchPrefix(t).Some?
    ensures var (g, rest) := MatchPrefix(t).value;
      Render(g) + rest == t && WellFormed(g)
  {
    var (major, r1) := NumericIdentifier(t).value;
    var (minor, r2) := NumericIdentifier(r1[1..]).value;
    var (patch, r3) := NumericIdentifier(r2[1..]).value;
    var (pre, r4) := PreReleaseGroup(r3);
    var (build, r5) := BuildGroup(r4);
    PreReleaseGroupWellFormed(r3);
    BuildGroupWellFormed(r4);
    Assemble(t, Groups(major, minor, patch, pre, build), r1, r2, r3, r4, r5);
  }

  /** The pieces a match is read in put back together give the input. */
  lemma Assemble(t: string, g: Groups, r1: string, r2: string, r3: string, r4: string, r5: string)
    requires t == g.major + r1 && r1 != [] && r1[0] == '.'
    requires r1[1..] == g.minor + r2 && r2 != [] && r2[0] == '.'
    requires r2[1..] == g.patch + r3
    requires r3 == (if g.preRelease == "" then "" else "-" + g.preRelease) + r4
    requires r4 == (if g.buildMetadata == "" then "" else "+" + g.buildMetadata) + r5
    ensures Render(g) + r5 == t
  {
    var pre := if g.preRelease == "" then "" else "-" + g.preRelease;
    var build := if g.buildMetadata == "" then "" else "+" + g.buildMetadata;
    assert r3 == Suffix(g) + r5;
    assert r1 == "." + r1[1..] && r2 == "." + r2[1..];
    calc {
      t;
      g.major + ("." + (g.minor + ("." + (g.patch + (Suffix(g) + r5)))));
      Render(g) + r5;
    }
  }

  // ---------------------------------------------------------------------
  // Scanning for the leftmost match

  /** A match found by `Regex.Match`: where it starts, its groups, and the
      input after it. */
  datatype Match = Match(index: nat, groups: Groups, rest: string)

  /** The pattern tried at start `q` of `s`. */
  function MatchAt(s: string, q: nat): Option<(Groups, string)> {
    if q <= |s| then MatchPrefix(s[q..]) else None
  }

  /** The scan `Regex.Match` makes: try the pattern at start `p`, `p + 1`,
      ... up to the end of `s` and stop at the first start where it
      matches. */
  function Scan(s: string, p: nat): (r: Option<Match>)
    requires p <= |s|
    ensures r.Some? ==> p <= r.value.index <= |s| && MatchAt(s, r.value.index) == Some((r.value.groups, r.value.rest))
    decreases |s| - p
  {
    match MatchAt(s, p)
    case Some((g, rest)) => Some(Match(p, g, rest))
    case None => if p == |s| then None else Scan(s, p + 1)
  }

  /** The scan from `p` stops at the first start from `p` on where the
      pattern matches, and finds nothing when there is none. */
  lemma {:induction false} ScanFinds(s: string, p: nat)
    requires p <= |s|
    ensures var r := Scan(s, p);
      && (r.Some? ==> p <= r.value.index <= |s| && MatchAt(s, r.value.index) == Some((r.value.groups, r.value.rest)))
      && (r.Some? ==> forall q | p <= q < r.value.index :: MatchAt(s, q).None?)
      && (r.None? ==> forall q | p <= q <= |s| :: MatchAt(s, q).None?)
    decreases |s| - p
  {
    var r := Scan(s, p);
    if MatchAt(s, p).None? && p < |s| {
      ScanFinds(s, p + 1);
      assert r == Scan(s, p + 1);
      // start p has no match; every later start is covered by the scan from p + 1
      if r.Some? {
        forall q | p <= q < r.value.index ensures MatchAt(s, q).None? {
          if q > p {}
        }
      } else {
        forall q | p <= q <= |s| ensures MatchAt(s, q).None? {
          if q > p {}
        }
      }
    }
  }

  /** `m` is where the scan stops: the pattern matches at `m.index` with
      these groups, and at no earlier start. */
  predicate IsLeftmostMatch(s: string, m: Match) {
    && m.index <= |s|
    && MatchAt(s, m.index) == Some((m.groups, m.rest))
    && forall q | 0 <= q < m.index :: MatchAt(s, q).None?
  }

  /** `SemverRegex.Match(s)`; the groups of a match are well formed. */
  function FirstMatch(s: string): (r: Option<Match>)
    ensures r.Some? ==> WellFormed(r.value.groups)
  {
    ScanFinds(s, 0);
    var r := Scan(s, 0);
    if r.Some? then
      MatchPrefixSound(s[r.value.index..]);
      r
    else r
  }

  /** `FirstMatch` returns the leftmost match, and nothing when the pattern
      matches at no start. */
  lemma FirstMatchLeftmost(s: string)
    ensures FirstMatch(s).Some? ==> IsLeftmostMatch(s, FirstMatch(s).value)
    ensures FirstMatch(s).None? ==> forall q | 0 <= q <= |s| :: MatchAt(s, q).None?
  {
    ScanFinds(s, 0);
  }

  // ---------------------------------------------------------------------
  // What a match means

  /** `t` starts with `MAJOR.MINOR.` followed by a digit: the only part of the
      pattern that is not optional. */
  ghost predicate StartsWithCore(t: string) {
    exists i, j :: CoreAt(t, i, j)
  }

  /** `t[..i]` and `t[i + 1..j]` are numbers, each followed by a dot, and a
      digit follows. */
  predicate CoreAt(t: string, i: nat, j: nat) {
    && 0 < i < j < |t| - 1
    && IsNumericIdentifier(t[..i]) && t[i] == '.'
    && IsNumericIdentifier(t[i + 1..j]) && t[j] == '.'
    && IsDigit(t[j + 1])
  }

  lemma DigitsExact(t: string, i: nat)
    requires i <= |t| && AllDigits(t[..i]) && (i == |t| || !IsDigit(t[i]))
    ensures Digits(t) == (t[..i], t[i..])
  {
    var (d, rest) := Digits(t);
    assert d == t[..|d|] && rest == t[|d|..];
    assert forall k | 0 <= k < i :: IsDigit(t[k]) by {
      forall k | 0 <= k < i ensures IsDigit(t[k]) {
        assert t[k] == t[..i][k];
      }
    }
    assert |d| == i;
  }

  /** A numeric identifier followed by a dot is read exactly. */
  lemma NumericIdentifierExact(t: string, i: nat)
    requires i < |t| && IsNumericIdentifier(t[..i]) && t[i] == '.'
    ensures NumericIdentifier(t) == Some((t[..i], t[i..]))
  {
    if t[0] != '0' {
      assert t[1..][..i - 1] == t[..i][1..];
      DigitsExact(t[1..], i - 1);
      assert [t[0]] + t[..i][1..] == t[..i];
    }
  }

  /** The recogniser finds a match at the start of `t` exactly when `t`
      starts with `MAJOR.MINOR.PATCH`: skipping or backtracking could not
      find one it misses. */
  lemma MatchPrefixComplete(t: string)
    ensures MatchPrefix(t).Some? <==> StartsWithCore(t)
  {
    if StartsWithCore(t) {
      CoreIsMatched(t);
    }
    if MatchPrefix(t).Some? {
      MatchIsCore(t);
    }
  }

  lemma CoreIsMatched(t: string)
    requires StartsWithCore(t)
    ensures MatchPrefix(t).Some?
  {
    var i, j :| CoreAt(t, i, j);
    CoreIsMatchedAt(t, i, j);
  }

  lemma CoreIsMatchedAt(t: string, i: nat, j: nat)
    requires CoreAt(t, i, j)
    ensures MatchPrefix(t).Some?
  {
    NumericIdentifierExact(t, i);
    var u := t[i + 1..];
    assert u[..j - i - 1] == t[i + 1..j];
    NumericIdentifierExact(u, j - i - 1);
  }

  lemma MatchIsCore(t: string)
    requires MatchPrefix(t).Some?
    ensures StartsWithCore(t)
  {
    var (g, rest) := MatchPrefix(t).value;
    MatchPrefixSound(t);
    RenderedIsCore(g, rest);
  }

  /** A rendered match starts with `MAJOR.MINOR.PATCH`. */
  lemma RenderedIsCore(g: Groups, rest: string)
    requires WellFormed(g)
    ensures CoreAt(Render(g) + rest, |g.major|, |g.major| + 1 + |g.minor|)
  {
    var tail := Suffix(g) + rest;
    assert Render(g) + rest == g.major + "." + g.minor + "." + g.patch + tail;
    ThreeNumbersAreCore(g.major, g.minor, g.patch, tail);
  }

  lemma ThreeNumbersAreCore(major: string, minor: string, patch: string, tail: string)
    requires IsNumericIdentifier(major) && IsNumericIdentifier(minor) && IsNumericIdentifier(patch)
    ensures CoreAt(major + "." + minor + "." + patch + tail, |major|, |major| + 1 + |minor|)
  {
    var t := major + "." + minor + "." + patch + tail;
    var i, j := |major|, |major| + 1 + |minor|;
    assert t[..i] == major;
    assert t[i + 1..j] == minor;
  }

  /** Position `q` of `s` starts with `MAJOR.MINOR.PATCH`. */
  ghost predicate CoreStartsAt(s: string, q: nat) {
    q <= |s| && StartsWithCore(s[q..])
  }

  /** The pattern matches at a start exactly when the core starts there. */
  lemma MatchAtComplete(s: string, q: nat)
    ensures MatchAt(s, q).Some? <==> CoreStartsAt(s, q)
  {
    if q <= |s| {
      MatchPrefixComplete(s[q..]);
    }
  }

  /** `Regex.Match` succeeds exactly when some position of `s` starts with
      `MAJOR.MINOR.PATCH`. */
  lemma FirstMatchIff(s: string)
    ensures FirstMatch(s).Some? <==> exists q | 0 <= q <= |s| :: CoreStartsAt(s, q)
  {
    FirstMatchLeftmost(s);
    if FirstMatch(s).Some? {
      MatchAtComplete(s, FirstMatch(s).value.index);
    } else {
      forall q | 0 <= q <= |s| ensures !CoreStartsAt(s, q) {
        MatchAtComplete(s, q);
      }
    }
  }

  /** The leftmost match (what `FirstMatch` returns) is the leftmost
      position that starts with `MAJOR.MINOR.PATCH`; `MatchAtLocates` says
      its groups spell out the text found there. */
  lemma FirstMatchLocates(s: string, m: Match)
    requires IsLeftmostMatch(s, m)
    ensures CoreStartsAt(s, m.index)
    ensures forall q | 0 <= q < m.index :: !CoreStartsAt(s, q)
  {
    NoCoreBefore(s, m.index);
    MatchAtComplete(s, m.index);
  }

  /** Where the pattern does not match, the core does not start. */
  lemma NoCoreBefore(s: string, i: nat)
    requires forall q | 0 <= q < i :: MatchAt(s, q).None?
    ensures forall q | 0 <= q < i :: !CoreStartsAt(s, q)
  {
    forall q | 0 <= q < i ensures !CoreStartsAt(s, q) {
      MatchAtComplete(s, q);
    }
  }

  /** The text a match at position `i` covers is found at `i`. */
  lemma MatchAtLocates(s: string, i: nat, g: Groups, rest: string)
    requires MatchAt(s, i) == Some((g, rest))
    ensures i + |Render(g)| <= |s| && s[i..i + |Render(g)|] == Render(g)
  {
    MatchPrefixSound(s[i..]);
    assert s[i..] == Render(g) + rest;
    assert s[i..][..|Render(g)|] == s[i..i + |Render(g)|];
  }

  // ---------------------------------------------------------------------
  // Reading a written-out match back

  /** A pre-release identifier the pattern reads back whole. An identifier
      that starts with a digit but is not numeric, such as `1a`, is not one:
      the alternative `[1-9]\d*` succeeds first and takes only `1`. */
  predicate IsReadableIdentifier(u: string) {
    IsNumericIdentifier(u) || (u != [] && IsLetterOrHyphen(u[0]) && AllIdentChars(u))
  }

  /** A pre-release whose dot-separated identifiers are all read back whole. */
  predicate IsReadablePreRelease(p: string) {
    var parts := Split(p, '.');
    forall k | 0 <= k < |parts| :: IsReadableIdentifier(parts[k])
  }

  /** `t` does not go on with a digit. */
  predicate DigitStop(t: string) { t == [] || !IsDigit(t[0]) }

  /** `t` does not go on with a character of `[0-9a-zA-Z-]`. */
  predicate IdentStop(t: string) { t == [] || !IsIdentChar(t[0]) }

  /** `t` does not go on with an identifier character, nor with a dot and
      one: a `(?:\.X)*` repetition stops in front of it. */
  predicate DotStop(t: string) {
    IdentStop(t) && !(|t| >= 2 && t[0] == '.' && IsIdentChar(t[1]))
  }

  /** What may follow a whole match without the pattern taking more of it. */
  predicate MatchEnd(t: string) {
    t == [] || (!IsIdentChar(t[0]) && t[0] != '.' && t[0] != '+')
  }

  lemma DigitsReads(d: string, rest: string)
    requires AllDigits(d) && DigitStop(rest)
    ensures Digits(d + rest) == (d, rest)
  {
    var t := d + rest;
    assert t[..|d|] == d && t[|d|..] == rest;
    DigitsExact(t, |d|);
  }

  lemma IdentCharsExact(t: string, i: nat)
    requires i <= |t| && AllIdentChars(t[..i]) && (i == |t| || !IsIdentChar(t[i]))
    ensures IdentChars(t) == (t[..i], t[i..])
  {
    var (w, rest) := IdentChars(t);
    assert w == t[..|w|] && rest == t[|w|..];
    assert forall k | 0 <= k < i :: IsIdentChar(t[k]) by {
      forall k | 0 <= k < i ensures IsIdentChar(t[k]) {
        assert t[k] == t[..i][k];
      }
    }
    assert |w| == i;
  }

  lemma IdentCharsReads(u: string, rest: string)
    requires AllIdentChars(u) && IdentStop(rest)
    ensures IdentChars(u + rest) == (u, rest)
  {
    var t := u + rest;
    assert t[..|u|] == u && t[|u|..] == rest;
    IdentCharsExact(t, |u|);
  }

  /** A numeric identifier not followed by a digit is read whole. */
  lemma NumericIdentifierReads(u: string, rest: string)
    requires IsNumericIdentifier(u) && DigitStop(rest)
    ensures NumericIdentifier(u + rest) == Some((u, rest))
  {
    var t := u + rest;
    if u != "0" {
      assert t[1..] == u[1..] + rest;
      DigitsReads(u[1..], rest);
      assert [t[0]] + u[1..] == u;
    } else {
      assert t[1..] == rest;
    }
  }

  /** A readable identifier not followed by an identifier character is
      read whole. */
  lemma ReadableIdentifierReads(u: string, rest: string)
    requires IsReadableIdentifier(u) && IdentStop(rest)
    ensures PreReleaseIdentifier(u + rest) == Some((u, rest))
  {
    var t := u + rest;
    if IsNumericIdentifier(u) {
      NumericIdentifierReads(u, rest);
    } else {
      assert t[1..] == u[1..] + rest;
      IdentCharsReads(u[1..], rest);
      assert [t[0]] + u[1..] == u;
    }
  }

  /** Text that continues with `Dotted(ids)` for non-empty `ids` starts with
      a dot, so it stops an identifier. */
  lemma DottedStops(ids: seq<string>, rest: string)
    requires IdentStop(rest)
    ensures IdentStop(Dotted(ids) + rest)
  {
    if ids != [] {
      assert (Dotted(ids) + rest)[0] == '.';
    }
  }

  /** The repetition `(?:\.ID)*` makes no iteration in front of text it
      cannot take. */
  lemma DottedIdentifiersEnd(rest: string)
    requires DotStop(rest)
    ensures DottedIdentifiers(rest) == ([], rest)
  {
    if rest != [] && rest[0] == '.' {
      assert rest[1..] == [] || rest[1..][0] == rest[1];
    }
  }

  /** One iteration of `(?:\.ID)*` that reads `id`, then the rest of the
      repetition. */
  lemma DottedIdentifiersCons(id: string, tail: string, ids: seq<string>, rest: string)
    requires PreReleaseIdentifier(id + tail) == Some((id, tail))
    requires DottedIdentifiers(tail) == (ids, rest)
    ensures DottedIdentifiers("." + (id + tail)) == ([id] + ids, rest)
  {
    var t := "." + (id + tail);
    assert t[0] == '.' && t[1..] == id + tail;
  }

  lemma {:induction false} DottedIdentifiersReads(ids: seq<string>, rest: string)
    requires forall k | 0 <= k < |ids| :: IsReadableIdentifier(ids[k])
    requires DotStop(rest)
    ensures DottedIdentifiers(Dotted(ids) + rest) == (ids, rest)
    decreases |ids|
  {
    if ids == [] {
      assert Dotted(ids) + rest == rest;
      DottedIdentifiersEnd(rest);
    } else {
      var tail := Dotted(ids[1..]) + rest;
      assert Dotted(ids) + rest == "." + (ids[0] + tail);
      DottedStops(ids[1..], rest);
      ReadableIdentifierReads(ids[0], tail);
      DottedIdentifiersReads(ids[1..], rest);
      DottedIdentifiersCons(ids[0], tail, ids[1..], rest);
      assert [ids[0]] + ids[1..] == ids;
    }
  }

  /** `(?:\.[0-9a-zA-Z-]+)*` makes no iteration in front of text it cannot
      take. */
  lemma DottedRunsEnd(rest: string)
    requires DotStop(rest)
    ensures DottedRuns(rest) == ([], rest)
  {
  }

  lemma DottedRunsCons(w: string, tail: string, runs: seq<string>, rest: string)
    requires w != [] && IdentChars(w + tail) == (w, tail)
    requires DottedRuns(tail) == (runs, rest)
    ensures DottedRuns("." + (w + tail)) == ([w] + runs, rest)
  {
    var t := "." + (w + tail);
    assert t[0] == '.' && t[1..] == w + tail && t[1] == w[0];
    assert IsIdentChar(w[0]);
  }

  lemma {:induction false} DottedRunsReads(runs: seq<string>, rest: string)
    requires forall k | 0 <= k < |runs| :: runs[k] != [] && AllIdentChars(runs[k])
    requires DotStop(rest)
    ensures DottedRuns(Dotted(runs) + rest) == (runs, rest)
    decreases |runs|
  {
    if runs == [] {
      assert Dotted(runs) + rest == rest;
      DottedRunsEnd(rest);
    } else {
      var tail := Dotted(runs[1..]) + rest;
      assert Dotted(runs) + rest == "." + (runs[0] + tail);
      DottedStops(runs[1..], rest);
      IdentCharsReads(runs[0], tail);
      DottedRunsReads(runs[1..], rest);
      DottedRunsCons(runs[0], tail, runs[1..], rest);
      assert [runs[0]] + runs[1..] == runs;
    }
  }

  /** A readable pre-release after `-` is captured whole. */
  lemma PreReleaseGroupReads(p: string, rest: string)
    requires IsReadablePreRelease(p) && DotStop(rest)
    ensures PreReleaseGroup("-" + p + rest) == (p, rest)
  {
    var parts := Split(p, '.');
    var first, ids := parts[0], parts[1..];
    assert parts == [first] + ids;
    JoinSplit(p, '.');
    JoinDotted(first, ids);
    var tail := Dotted(ids) + rest;
    var t := "-" + p + rest;
    assert t == "-" + (first + tail);
    assert t[1..] == first + tail;
    assert forall k | 0 <= k < |ids| :: IsReadableIdentifier(ids[k]) by {
      forall k | 0 <= k < |ids| ensures IsReadableIdentifier(ids[k]) {
        assert ids[k] == parts[k + 1];
      }
    }
    DottedStops(ids, rest);
    ReadableIdentifierReads(first, tail);
    DottedIdentifiersReads(ids, rest);
  }

  /** Build metadata after `+` is captured whole. */
  lemma BuildGroupReads(b: string, rest: string)
    requires IsBuildMetadata(b) && DotStop(rest)
    ensures BuildGroup("+" + b + rest) == (b, rest)
  {
    var parts := Split(b, '.');
    var first, runs := parts[0], parts[1..];
    assert parts == [first] + runs;
    JoinSplit(b, '.');
    JoinDotted(first, runs);
    var tail := Dotted(runs) + rest;
    var t := "+" + b + rest;
    assert t == "+" + (first + tail);
    assert t[1..] == first + tail;
    assert t[1] == first[0];
    assert forall k | 0 <= k < |runs| :: runs[k] != [] && AllIdentChars(runs[k]) by {
      forall k | 0 <= k < |runs| ensures runs[k] != [] && AllIdentChars(runs[k]) {
        assert runs[k] == parts[k + 1];
      }
    }
    DottedStops(runs, rest);
    IdentCharsReads(first, tail);
    DottedRunsReads(runs, rest);
  }

  /** Text a pre-release group cannot continue with: no identifier
      character and no dot. It may start with `+`. */
  predicate TagEnd(t: string) {
    t == [] || (!IsIdentChar(t[0]) && t[0] != '.')
  }

  /** The build metadata written out, if any, followed by text the pattern
      cannot take, is read as that metadata. */
  lemma BuildSuffixReads(b: string, rest: string, r4: string)
    requires b == "" || IsBuildMetadata(b)
    requires MatchEnd(rest)
    requires r4 == (if b == "" then "" else "+" + b) + rest
    ensures BuildGroup(r4) == (b, rest) && TagEnd(r4)
  {
    if b != "" {
      BuildGroupReads(b, rest);
      assert r4[0] == '+';
    } else {
      assert r4 == rest;
    }
  }

  /** The pre-release written out, if any, followed by the build part, is
      read as that pre-release; no digit follows the patch number. */
  lemma PreReleaseSuffixReads(p: string, r4: string, r3: string)
    requires p == "" || IsReadablePreRelease(p)
    requires TagEnd(r4)
    requires r3 == (if p == "" then "" else "-" + p) + r4
    ensures PreReleaseGroup(r3) == (p, r4) && DigitStop(r3)
  {
    if p != "" {
      PreReleaseGroupReads(p, r4);
      assert r3[0] == '-';
    } else {
      assert r3 == r4;
    }
  }

  lemma RenderSplits(g: Groups, r4: string, rest: string)
    requires r4 == (if g.buildMetadata == "" then "" else "+" + g.buildMetadata) + rest
    ensures Render(g) + rest
      == g.major + ("." + (g.minor + ("." + (g.patch + ((if g.preRelease == "" then "" else "-" + g.preRelease) + r4)))))
  {
  }

  /** A match written out in full, followed by text the pattern cannot take,
      is read back as exactly those groups: the capture is neither shorter
      nor longer than the text of each group. */
  lemma MatchPrefixReads(g: Groups, rest: string)
    requires WellFormed(g) && (g.preRelease == "" || IsReadablePreRelease(g.preRelease))
    requires MatchEnd(rest)
    ensures MatchPrefix(Render(g) + rest) == Some((g, rest))
  {
    var r4 := (if g.buildMetadata == "" then "" else "+" + g.buildMetadata) + rest;
    var r3 := (if g.preRelease == "" then "" else "-" + g.preRelease) + r4;
    RenderSplits(g, r4, rest);
    BuildSuffixReads(g.buildMetadata, rest, r4);
    PreReleaseSuffixReads(g.preRelease, r4, r3);
    MatchPrefixOfParts(g, r3, r4, rest);
  }

  /** Three numbers followed by text whose optional groups read as `g`'s
      make a match with groups `g`. */
  lemma MatchPrefixOfParts(g: Groups, r3: string, r4: string, rest: string)
    requires IsNumericIdentifier(g.major) && IsNumericIdentifier(g.minor) && IsNumericIdentifier(g.patch)
    requires DigitStop(r3)
    requires PreReleaseGroup(r3) == (g.preRelease, r4) && BuildGroup(r4) == (g.buildMetadata, rest)
    ensures MatchPrefix(g.major + ("." + (g.minor + ("." + (g.patch + r3))))) == Some((g, rest))
  {
    var r2 := "." + (g.patch + r3);
    var r1 := "." + (g.minor + r2);
    NumericIdentifierReads(g.patch, r3);
    assert r2[1..] == g.patch + r3;
    NumericIdentifierReads(g.minor, r2);
    assert r1[1..] == g.minor + r2;
    NumericIdentifierReads(g.major, r1);
  }

  /** `-1a`: the alternative `[1-9]\d*` reads `1`, and the repetition of
      dotted identifiers stops at `a`. */
  lemma PreReleaseStopsAtDigitLed(t: string)
    requires t == "-1a"
    ensures PreReleaseGroup(t) == ("1", "a")
  {
    var a := "a";
    var u := t[1..];
    assert u == "1" + a;
    NumericIdentifierReads("1", a);
    assert PreReleaseIdentifier(u) == Some(("1", a));
    assert DottedIdentifiers(a) == ([], a);
    JoinDotted("1", []);
  }

  /** `1.0.0-1a`: the pre-release identifier reads as `1` and `a` is left
      after the match. */
  lemma MatchPrefixStopsAtDigitLedIdentifier(s: string)
    requires s == "1.0.0-1a"
    ensures MatchPrefix(s) == Some((Groups("1", "0", "0", "1", ""), "a"))
  {
    var g := Groups("1", "0", "0", "1", "");
    var r3, a := "-1a", "a";
    PreReleaseStopsAtDigitLed(r3);
    assert BuildGroup(a) == ("", a);
    assert s == g.major + ("." + (g.minor + ("." + (g.patch + r3))));
    MatchPrefixOfParts(g, r3, a, a);
  }

  lemma FirstMatchStopsAtDigitLedIdentifier(s: string)
    requires s == "1.0.0-1a"
    ensures FirstMatch(s) == Some(Match(0, Groups("1", "0", "0", "1", ""), "a"))
  {
    MatchPrefixStopsAtDigitLedIdentifier(s);
    assert s[0..] == s;
  }

  /** In `v1.2.3` no match starts at the `v`, and the match at 1 is found. */
  lemma FirstMatchSkipsLeadingText(s: string)
    requires s == "v1.2.3"
    ensures FirstMatch(s) == Some(Match(1, Groups("1", "2", "3", "", ""), ""))
  {
    NoMatchAtLetter(s);
    MatchAfterLetter(s);
    assert Scan(s, 0) == Scan(s, 1);
  }

  /** No match starts at the `v` of `v1.2.3`. */
  lemma NoMatchAtLetter(s: string)
    requires s == "v1.2.3"
    ensures MatchAt(s, 0).None?
  {
    assert s[0..] == s && s[0] == 'v';
  }

  /** The match after the `v` of `v1.2.3` takes the rest of the text. */
  lemma MatchAfterLetter(s: string)
    requires s == "v1.2.3"
    ensures MatchAt(s, 1) == Some((Groups("1", "2", "3", "", ""), ""))
  {
    var g := Groups("1", "2", "3", "", "");
    assert s[1..] == Render(g) + "";
    MatchPrefixReads(g, "");
  }

  /** Two readable identifiers joined by a dot form a readable pre-release. */
  lemma ReadablePair(a: string, b: string)
    requires IsReadableIdentifier(a) && IsReadableIdentifier(b)
    ensures IsReadablePreRelease(a + "." + b) && IsPreRelease(a + "." + b)
  {
    var parts := [a, b];
    assert !IsNumericIdentifier(a) ==> !IsDigit(a[0]);
    assert !IsNumericIdentifier(b) ==> !IsDigit(b[0]);
    IdentifierHasNoDot(a);
    IdentifierHasNoDot(b);
    SplitJoin(parts, '.');
    assert parts[1..] == [b];
    assert Join(parts, '.') == a + "." + b;
  }

  /** Two runs of identifier characters joined by a dot form build metadata. */
  lemma RunPair(a: string, b: string)
    requires a != [] && AllIdentChars(a) && b != [] && AllIdentChars(b)
    ensures IsBuildMetadata(a + "." + b)
  {
    var parts := [a, b];
    RunHasNoDot(a);
    RunHasNoDot(b);
    SplitJoin(parts, '.');
    assert parts[1..] == [b];
    assert Join(parts, '.') == a + "." + b;
  }
}
