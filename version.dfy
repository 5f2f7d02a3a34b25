/** The `Spectrum.Version` struct (Version.cs): a semantic version with its
    parse, equality, ordering and text form.

    A C# `string` may be `null`; `NullableString` keeps that apart from the
    empty string because the code tells them apart. Only `default(Version)`
    holds nulls: the constructor turns a missing pre-release or metadata into
    `""`, and the struct's field initializer sets the cached text to `""` in
    every constructed value. */
module Versions {
  import opened Common
  import opened Text
  import opened SemverRegex

  datatype NullableString = Null | Str(s: string)

  /** `x ?? ""`. */
  function OrEmpty(x: NullableString): string {
    if x.Str? then x.s else ""
  }

  /** A `Spectrum.Version` value: the five public properties and the private
      `_versionString` that `ToString` returns. */
  datatype Version = Version(
    major: Int32, minor: Int32, patch: Int32,
    preRelease: NullableString, metadata: NullableString,
    versionString: NullableString)

  /** `new Version(major, minor, patch, prerelease, metadata)`: a missing
      pre-release or metadata becomes `""`, and the field initializer of
      `_versionString` runs, so the cached text is `""`. */
  function Create(major: Int32, minor: Int32, patch: Int32,
                  prerelease: NullableString := Null, metadata: NullableString := Null): (v: Version)
    ensures v.major == major && v.minor == minor && v.patch == patch
    ensures v.preRelease.Str? && v.metadata.Str? && v.versionString == Str("")
    ensures prerelease.Str? ==> v.preRelease == prerelease
    ensures metadata.Str? ==> v.metadata == metadata
    ensures prerelease.Null? ==> v.preRelease == Str("")
    ensures metadata.Null? ==> v.metadata == Str("")
  {
    Version(major, minor, patch, Str(OrEmpty(prerelease)), Str(OrEmpty(metadata)), Str(""))
  }

  /** `default(Version)`: every field zero or null; no constructor runs. */
  const Default: Version := Version(0, 0, 0, Null, Null, Null)

  /** `Version.Min` and `Version.Max`. */
  const Min: Version := Create(0, 0, 0)
  const Max: Version := Create(MaxInt32, MaxInt32, MaxInt32)

  // ---------------------------------------------------------------------
  // Parsing

  /** The value `Parse` builds from a match: `int.Parse` of each number, the
      two optional groups as they are, and the input as the cached text. */
  function FromGroups(g: Groups, input: string): (r: Result<Version>)
    requires WellFormed(g)
    ensures r.Ok? <==> DigitsValue(g.major) <= MaxInt32 && DigitsValue(g.minor) <= MaxInt32 && DigitsValue(g.patch) <= MaxInt32
    ensures r.Ok? ==> r.value.major == DigitsValue(g.major) && r.value.minor == DigitsValue(g.minor) && r.value.patch == DigitsValue(g.patch)
    ensures r.Ok? ==> r.value.preRelease == Str(g.preRelease) && r.value.metadata == Str(g.buildMetadata) && r.value.versionString == Str(input)
    ensures r.Err? ==> r.error == OverflowException
  {
    match (ParseInt32(g.major), ParseInt32(g.minor), ParseInt32(g.patch))
    case (Ok(major), Ok(minor), Ok(patch)) =>
      Ok(Create(major, minor, patch, Str(g.preRelease), Str(g.buildMetadata)).(versionString := Str(input)))
    case _ => Err(OverflowException)
  }

  /** `Version.Parse(input)`: a `FormatException` when no part of `input`
      matches the pattern, an `OverflowException` when one of the three
      numbers does not fit in an `int`, and otherwise the version read from
      the leftmost match, which remembers the whole input as its text. */
  function Parse(input: string): (r: Result<Version>)
    ensures r.Err? ==> r.error == FormatException || r.error == OverflowException
    ensures r.Ok? ==> && 0 <= r.value.major && 0 <= r.value.minor && 0 <= r.value.patch
                      && r.value.preRelease.Str? && r.value.metadata.Str?
                      && r.value.versionString == Str(input)
  {
    match FirstMatch(input)
    case None => Err(FormatException)
    case Some(m) => FromGroups(m.groups, input)
  }

  /** `Version.TryParse(input, out result)`: the flag and the value. It
      repeats `Parse` except that a failed match gives `(false, default)`;
      an overflowing number still throws. */
  function TryParse(input: string): (r: Result<(bool, Version)>)
    ensures Parse(input).Ok? ==> r == Ok((true, Parse(input).value))
    ensures Parse(input) == Err(FormatException) ==> r == Ok((false, Default))
    ensures Parse(input) == Err(OverflowException) ==> r == Err(OverflowException)
  {
    match FirstMatch(input)
    case None => Ok((false, Default))
    case Some(m) =>
      match FromGroups(m.groups, input)
      case Ok(v) => Ok((true, v))
      case Err(e) => Err(e)
  }

  /** `Parse` fails with a format error exactly when no position of the input
      starts with `MAJOR.MINOR.PATCH`; otherwise its numbers and groups are
      those of the leftmost such position. */
  lemma ParseFormatError(input: string)
    ensures Parse(input) == Err(FormatException) <==> forall q | 0 <= q <= |input| :: !CoreStartsAt(input, q)
  {
    FirstMatchIff(input);
  }

  /** What a successful `Parse` read from the leftmost match (which
      `FirstMatchLocates` places in the input): the three numbers are its
      digits' values and the pre-release and metadata are its groups. */
  lemma ParseReadsLeftmostMatch(input: string, m: Match)
    requires FirstMatch(input) == Some(m) && Parse(input).Ok?
    ensures var v := Parse(input).value;
      && v.major == DigitsValue(m.groups.major)
      && v.minor == DigitsValue(m.groups.minor)
      && v.patch == DigitsValue(m.groups.patch)
      && v.preRelease == Str(m.groups.preRelease)
      && v.metadata == Str(m.groups.buildMetadata)
  {
  }

  /** A parse fails with an overflow exactly when a match is found but one of
      its numbers is above `int.MaxValue`. */
  lemma ParseOverflow(input: string)
    ensures Parse(input) == Err(OverflowException) <==>
      FirstMatch(input).Some? &&
      var g := FirstMatch(input).value.groups;
      (DigitsValue(g.major) > MaxInt32 || DigitsValue(g.minor) > MaxInt32 || DigitsValue(g.patch) > MaxInt32)
  {
  }

  /** A version written out in full is parsed back: each number is the value
      of its digits and each group is its text, whatever follows that the
      pattern cannot take. */
  lemma ParseRendered(g: Groups, rest: string)
    requires WellFormed(g) && (g.preRelease == "" || IsReadablePreRelease(g.preRelease))
    requires MatchEnd(rest)
    requires DigitsValue(g.major) <= MaxInt32 && DigitsValue(g.minor) <= MaxInt32 && DigitsValue(g.patch) <= MaxInt32
    ensures Parse(Render(g) + rest) == Ok(Version(DigitsValue(g.major), DigitsValue(g.minor), DigitsValue(g.patch),
                                                  Str(g.preRelease), Str(g.buildMetadata), Str(Render(g) + rest)))
  {
    var s := Render(g) + rest;
    MatchPrefixReads(g, rest);
    assert s[0..] == s;
    assert MatchAt(s, 0) == Some((g, rest));
  }

  /** The patch takes every digit, and the pre-release and metadata take
      every identifier. */
  lemma ParseReadsWholeGroups(s: string)
    requires s == "1.2.34-alpha+b"
    ensures Parse(s) == Ok(Version(1, 2, 34, Str("alpha"), Str("b"), Str(s)))
  {
    var g := Groups("1", "2", "34", "alpha", "b");
    WholeGroupsWellFormed(g);
    assert Render(g) + "" == s;
    ParseRendered(g, "");
  }

  lemma WholeGroupsWellFormed(g: Groups)
    requires g == Groups("1", "2", "34", "alpha", "b")
    ensures WellFormed(g) && IsReadablePreRelease(g.preRelease)
    ensures DigitsValue(g.major) == 1 && DigitsValue(g.minor) == 2 && DigitsValue(g.patch) == 34
  {
    var alpha := "alpha";
    assert IsReadableIdentifier(alpha) && g.preRelease == alpha;
    assert Split(alpha, '.') == [alpha];
    assert "34"[..1] == "3";
  }

  /** Dotted groups are taken whole. */
  lemma ParseReadsDottedGroups(s: string)
    requires s == "1.0.0-alpha.1+b.5"
    ensures Parse(s) == Ok(Version(1, 0, 0, Str("alpha.1"), Str("b.5"), Str(s)))
  {
    var g := Groups("1", "0", "0", "alpha.1", "b.5");
    DottedGroupsWellFormed(g);
    assert DigitsValue(g.major) == 1 && DigitsValue(g.minor) == 0 && DigitsValue(g.patch) == 0;
    assert Render(g) + "" == s;
    ParseRendered(g, "");
  }

  lemma DottedGroupsWellFormed(g: Groups)
    requires g == Groups("1", "0", "0", "alpha.1", "b.5")
    ensures WellFormed(g) && IsReadablePreRelease(g.preRelease)
  {
    AlphaOneReadable(g.preRelease);
    BFiveIsMetadata(g.buildMetadata);
    assert IsNumericIdentifier(g.major) && IsNumericIdentifier(g.minor) && IsNumericIdentifier(g.patch);
  }

  lemma AlphaOneReadable(p: string)
    requires p == "alpha.1"
    ensures IsReadablePreRelease(p) && IsPreRelease(p)
  {
    var alpha, one := "alpha", "1";
    assert IsReadableIdentifier(alpha) && IsReadableIdentifier(one);
    ReadablePair(alpha, one);
    assert p == alpha + "." + one;
  }

  lemma BFiveIsMetadata(m: string)
    requires m == "b.5"
    ensures IsBuildMetadata(m)
  {
    var b, five := "b", "5";
    assert AllIdentChars(b) && AllIdentChars(five);
    RunPair(b, five);
    assert m == b + "." + five;
  }

  /** `Parse` finds the match wherever it starts: `v1.2.3` reads as 1.2.3. */
  lemma ParseSkipsLeadingText(s: string)
    requires s == "v1.2.3"
    ensures Parse(s) == Ok(Version(1, 2, 3, Str(""), Str(""), Str(s)))
  {
    FirstMatchSkipsLeadingText(s);
    assert DigitsValue("1") == 1 && DigitsValue("2") == 2 && DigitsValue("3") == 3;
  }

  /** An identifier led by a non-zero digit is cut at the first non-digit:
      `[1-9]\d*` is the alternative that succeeds first and the rest of the
      pattern is optional, so `1.0.0-1a` has the pre-release `1`. */
  lemma ParseStopsAtDigitLedIdentifier(s: string)
    requires s == "1.0.0-1a"
    ensures Parse(s) == Ok(Version(1, 0, 0, Str("1"), Str(""), Str(s)))
  {
    FirstMatchStopsAtDigitLedIdentifier(s);
    assert DigitsValue("1") == 1 && DigitsValue("0") == 0;
  }

  // ---------------------------------------------------------------------
  // Equality

  /** `Equals(Version)`, `==`: the five public properties agree; the cached
      text plays no part. */
  function Eq(a: Version, b: Version): (r: bool)
    ensures r <==> a.(versionString := Null) == b.(versionString := Null)
  {
    a.major == b.major && a.minor == b.minor && a.patch == b.patch
    && a.preRelease == b.preRelease && a.metadata == b.metadata
  }

  /** `!=`. */
  function Neq(a: Version, b: Version): (r: bool)
    ensures r <==> a.(versionString := Null) != b.(versionString := Null)
  {
    !Eq(a, b)
  }

  // ---------------------------------------------------------------------
  // Ordering

  /** One pre-release part against another: numerically when both parse as
      `int`, otherwise ordinally. */
  function PartCompare(x: string, y: string): (r: int)
    ensures -1 <= r <= 1
    ensures x == y ==> r == 0
  {
    match (IntTryParse(x), IntTryParse(y))
    case (Some(m), Some(n)) => CompareInt(m, n)
    case _ => OrdinalCompare(x, y)
  }

  /** The part lists side by side: the first part that differs decides, and a
      list that runs out first is smaller. */
  function PartsCompare(l: seq<string>, r: seq<string>): (c: int)
    ensures -1 <= c <= 1
    ensures l == r ==> c == 0
    ensures |l| < |r| && l == r[..|l|] ==> c == -1
  {
    if l == [] && r == [] then 0
    else if l == [] then -1
    else if r == [] then 1
    else
      var c := PartCompare(l[0], r[0]);
      if c != 0 then c else PartsCompare(l[1..], r[1..])
  }

  /** The specification of `CompareTo` (whose sign is all its callers use):
      major, minor and patch numerically, then, when the pre-releases differ,
      a null pre-release is greater, and otherwise their dot-separated parts
      are compared. Metadata plays no part. */
  function Compare(a: Version, b: Version): (r: int)
    ensures -1 <= r <= 1
    ensures a.major != b.major ==> r != 0 && (r < 0 <==> a.major < b.major)
    ensures a.major == b.major && a.minor != b.minor ==> r != 0 && (r < 0 <==> a.minor < b.minor)
    ensures a.major == b.major && a.minor == b.minor && a.patch != b.patch ==> r != 0 && (r < 0 <==> a.patch < b.patch)
    ensures r == 0 ==> a.major == b.major && a.minor == b.minor && a.patch == b.patch
    ensures a.major == b.major && a.minor == b.minor && a.patch == b.patch && a.preRelease == b.preRelease ==> r == 0
  {
    if a.major != b.major then CompareInt(a.major, b.major)
    else if a.minor != b.minor then CompareInt(a.minor, b.minor)
    else if a.patch != b.patch then CompareInt(a.patch, b.patch)
    else if a.preRelease != b.preRelease then
      if a.preRelease.Null? then 1
      else if b.preRelease.Null? then -1
      else PartsCompare(Split(a.preRelease.s, '.'), Split(b.preRelease.s, '.'))
    else 0
  }

  /** `CompareTo(right)`, with its loop over the pre-release parts. */
  method CompareTo(left: Version, right: Version) returns (c: int)
    ensures c == Compare(left, right)
  {
    if left.major != right.major {
      return CompareInt(left.major, right.major);
    }
    if left.minor != right.minor {
      return CompareInt(left.minor, right.minor);
    }
    if left.patch != right.patch {
      return CompareInt(left.patch, right.patch);
    }
    if left.preRelease != right.preRelease {
      if left.preRelease.Null? {
        return 1;
      }
      if right.preRelease.Null? {
        return -1;
      }
      var leftParts := Split(left.preRelease.s, '.');
      var rightParts := Split(right.preRelease.s, '.');
      var n := if |leftParts| < |rightParts| then |rightParts| else |leftParts|;
      var i := 0;
      while i < n
        invariant 0 <= i <= |leftParts| && i <= |rightParts|
        invariant PartsCompare(leftParts[i..], rightParts[i..]) == Compare(left, right)
      {
        if i >= |leftParts| {
          return -1;
        }
        if i >= |rightParts| {
          return 1;
        }
        var comparison := PartCompare(leftParts[i], rightParts[i]);
        if comparison != 0 {
          return comparison;
        }
        assert leftParts[i..][1..] == leftParts[i + 1..];
        assert rightParts[i..][1..] == rightParts[i + 1..];
        i := i + 1;
      }
    }
    return 0;
  }

  /** The four comparison operators. */
  predicate Less(a: Version, b: Version): (r: bool)
    ensures r <==> Greater(b, a)
    ensures r ==> !GreaterEq(a, b)
  {
    CompareAntisymmetric(a, b);
    Compare(a, b) < 0
  }

  predicate LessEq(a: Version, b: Version): (r: bool)
    ensures r <==> GreaterEq(b, a)
    ensures r || Greater(a, b)
  {
    CompareAntisymmetric(a, b);
    Compare(a, b) <= 0
  }

  /** `a > b` holds exactly when `b` compares below `a`. */
  predicate Greater(a: Version, b: Version): (r: bool)
    ensures r <==> Compare(b, a) < 0
  {
    CompareAntisymmetric(a, b);
    Compare(a, b) > 0
  }

  predicate GreaterEq(a: Version, b: Version): (r: bool)
    ensures r <==> Compare(b, a) <= 0
  {
    CompareAntisymmetric(a, b);
    Compare(a, b) >= 0
  }

  lemma {:induction false} PartCompareAntisymmetric(x: string, y: string)
    ensures PartCompare(x, y) == -PartCompare(y, x)
  {
    OrdinalCompareAntisymmetric(x, y);
  }

  lemma {:induction false} PartsCompareAntisymmetric(l: seq<string>, r: seq<string>)
    ensures PartsCompare(l, r) == -PartsCompare(r, l)
  {
    if l != [] && r != [] {
      PartCompareAntisymmetric(l[0], r[0]);
      PartsCompareAntisymmetric(l[1..], r[1..]);
    }
  }

  /** Swapping the operands flips the sign, so `a < b` exactly when `b > a`
      and `a <= b` exactly when `b >= a`. */
  lemma CompareAntisymmetric(a: Version, b: Version)
    ensures Compare(a, b) == -Compare(b, a)
  {
    if a.preRelease.Str? && b.preRelease.Str? {
      PartsCompareAntisymmetric(Split(a.preRelease.s, '.'), Split(b.preRelease.s, '.'));
    }
  }

  /** Equal versions are in the same place in the order: they compare equal
      to each other and alike to every third version. */
  lemma EqualVersionsCompareAlike(a: Version, b: Version, c: Version)
    requires Eq(a, b)
    ensures Compare(a, b) == 0
    ensures Compare(a, c) == Compare(b, c) && Compare(c, a) == Compare(c, b)
  {
  }

  /** Different major, minor or patch numbers decide the order
      lexicographically, whatever the pre-release and metadata. */
  lemma CoreOrderIsLexicographic(a: Version, b: Version)
    requires (a.major, a.minor, a.patch) != (b.major, b.minor, b.patch)
    ensures Less(a, b) <==>
      a.major < b.major || (a.major == b.major && (a.minor < b.minor || (a.minor == b.minor && a.patch < b.patch)))
    ensures Compare(a, b) != 0
  {
  }

  /** Metadata does not take part in the order, though it does in equality:
      `1.0.0` and `1.0.0+build` compare equal without being equal. */
  lemma MetadataIgnoredByOrder(a: Version, b: Version, m: NullableString)
    ensures Compare(a.(metadata := m), b) == Compare(a, b)
    ensures Compare(b, a.(metadata := m)) == Compare(b, a)
    ensures Compare(Create(1, 0, 0), Create(1, 0, 0, Null, Str("build"))) == 0
    ensures !Eq(Create(1, 0, 0), Create(1, 0, 0, Null, Str("build")))
  {
  }

  /** A version with no pre-release is BELOW any version with the same numbers
      and a non-empty pre-release: `""` splits into the single part `""`,
      which is not a number and is ordinally below every other first part. */
  lemma {:induction false} ReleaseBelowPreRelease(a: Version, b: Version)
    requires (a.major, a.minor, a.patch) == (b.major, b.minor, b.patch)
    requires a.preRelease == Str("") && b.preRelease.Str? && b.preRelease.s != ""
    ensures Less(a, b)
  {
    var parts := Split(b.preRelease.s, '.');
    assert Split("", '.') == [""];
    if parts[0] == "" && |parts| == 1 {
      JoinSplit(b.preRelease.s, '.');
      assert false;
    }
    if parts[0] != "" {
      assert IntTryParse("") == None by { IntTryParseNeedsDigit(""); }
    }
  }

  /** `Version.Min` is at or below every version with non-negative numbers
      and a pre-release, so every parsed version, and below `default`. */
  lemma MinIsLeast(v: Version)
    requires 0 <= v.major && 0 <= v.minor && 0 <= v.patch && v.preRelease.Str?
    ensures LessEq(Min, v)
    ensures Less(Min, Default)
  {
    if (v.major, v.minor, v.patch) == (0, 0, 0) && v.preRelease != Str("") {
      ReleaseBelowPreRelease(Min, v);
    }
  }

  /** `Version.Max` is not the greatest version: a pre-release of the same
      numbers is above it. */
  lemma MaxIsNotGreatest()
    ensures Greater(Create(MaxInt32, MaxInt32, MaxInt32, Str("alpha")), Max)
  {
    ReleaseBelowPreRelease(Max, Create(MaxInt32, MaxInt32, MaxInt32, Str("alpha")));
    CompareAntisymmetric(Max, Create(MaxInt32, MaxInt32, MaxInt32, Str("alpha")));
  }

  /** Two versions that differ only in a one-part pre-release compare as
      those parts do. */
  lemma SinglePartsCompare(x: string, y: string)
    requires x != y && '.' !in x && '.' !in y
    ensures Compare(Create(1, 0, 0, Str(x)), Create(1, 0, 0, Str(y))) == PartCompare(x, y)
  {
    assert Split(x, '.') == [x] && Split(y, '.') == [y];
  }

  /** The part-wise rule: when the first k parts compare 0 pairwise, the next
      pair that compares non-zero decides, and otherwise the list that runs
      out first is smaller. */
  lemma {:induction false} PartsCompareFirstDifference(l: seq<string>, r: seq<string>, k: nat)
    requires k <= |l| && k <= |r|
    requires forall j | 0 <= j < k :: PartCompare(l[j], r[j]) == 0
    ensures k < |l| && k < |r| && PartCompare(l[k], r[k]) != 0 ==> PartsCompare(l, r) == PartCompare(l[k], r[k])
    ensures k == |l| < |r| ==> PartsCompare(l, r) == -1
    ensures k == |r| < |l| ==> PartsCompare(l, r) == 1
    ensures k == |l| == |r| ==> PartsCompare(l, r) == 0
  {
    if k == 0 {
      // one unfolding of `PartsCompare` settles each case
    } else {
      PartsCompareTail(l, r);
      forall j | 0 <= j < k - 1
        ensures PartCompare(l[1..][j], r[1..][j]) == 0
      {
        assert PartCompare(l[j + 1], r[j + 1]) == 0;
      }
      PartsCompareFirstDifference(l[1..], r[1..], k - 1);
      if k < |l| && k < |r| {
        assert l[1..][k - 1] == l[k] && r[1..][k - 1] == r[k];
      }
    }
  }

  /** Parts that compare 0 at the head pass the decision to the tails. */
  lemma PartsCompareTail(l: seq<string>, r: seq<string>)
    requires l != [] && r != [] && PartCompare(l[0], r[0]) == 0
    ensures PartsCompare(l, r) == PartsCompare(l[1..], r[1..])
  {
  }

  /** The pre-release rule of `Compare` for any number of parts: with equal
      numbers and two non-null pre-releases whose first k parts compare 0
      pairwise, the k-th parts decide, or the shorter part list is smaller. */
  lemma CompareFirstDifferingPart(a: Version, b: Version, k: nat)
    requires a.major == b.major && a.minor == b.minor && a.patch == b.patch
    requires a.preRelease.Str? && b.preRelease.Str?
    requires var (l, r) := (Split(a.preRelease.s, '.'), Split(b.preRelease.s, '.'));
      k <= |l| && k <= |r| && forall j | 0 <= j < k :: PartCompare(l[j], r[j]) == 0
    ensures var (l, r) := (Split(a.preRelease.s, '.'), Split(b.preRelease.s, '.'));
      (k < |l| && k < |r| && PartCompare(l[k], r[k]) != 0 ==> Compare(a, b) == PartCompare(l[k], r[k]))
      && (k == |l| < |r| ==> Compare(a, b) == -1)
      && (k == |r| < |l| ==> Compare(a, b) == 1)
      && (k == |l| == |r| ==> Compare(a, b) == 0)
  {
    PartsCompareFirstDifference(Split(a.preRelease.s, '.'), Split(b.preRelease.s, '.'), k);
  }

  /** `01` and `1` compare 0 as numbers, so `[01]` against `[1, x]` is
      decided by length although the texts differ. */
  lemma NumericallyEqualPartThenShorter()
    ensures PartsCompare(["01"], ["1", "x"]) == -1
  {
    LeadingZeroPartIsEqual("01", "1");
    PartsCompareFirstDifference(["01"], ["1", "x"], 1);
  }

  lemma LeadingZeroPartIsEqual(x: string, y: string)
    requires x == "01" && y == "1"
    ensures PartCompare(x, y) == 0
  {
    assert DigitsValue(x) == 1 by {
      assert x[..1] == "0" && x[1] == '1';
      assert DigitsValue("0") == 0 by { assert "0"[..0] == []; }
    }
    IntTryParseDigits(x);
    IntTryParseDigits(y);
  }

  /** Hence `1.0.0-01` is below `1.0.0-1.x`. */
  lemma NumericallyEqualPreReleaseThenShorter()
    ensures Compare(Create(1, 0, 0, Str("01")), Create(1, 0, 0, Str("1.x"))) == -1
  {
    NumericallyEqualPartThenShorter();
    assert Split("01", '.') == ["01"];
    SplitOneDot();
  }

  lemma SplitOneDot()
    ensures Split("1.x", '.') == ["1", "x"]
  {
    assert IndexOf("1.x", '.') == 1;
    assert "1.x"[..1] == "1" && "1.x"[2..] == "x";
    assert Split("x", '.') == ["x"];
  }

  /** The order is not transitive: mixing a part that parses as a number with
      one that does not switches from numeric to ordinal comparison, which
      closes the cycle `1.0.0-9 < 1.0.0-10 < 1.0.0-1a < 1.0.0-9`. */
  lemma OrderHasCycle()
    ensures var (a, b, c) := (Create(1, 0, 0, Str("9")), Create(1, 0, 0, Str("10")), Create(1, 0, 0, Str("1a")));
      Less(a, b) && Less(b, c) && Less(c, a)
  {
    SinglePartsCompare("9", "10");
    SinglePartsCompare("10", "1a");
    SinglePartsCompare("1a", "9");
    NumbersCompareNumerically();
    MixedPartsCompareOrdinally("10");
    MixedPartsCompareOrdinally("9");
    assert OrdinalCompare("10", "1a") == -1;
    assert OrdinalCompare("1a", "9") == -1;
  }

  lemma NumbersCompareNumerically()
    ensures PartCompare("9", "10") == -1
  {
    IntTryParseDigits("9");
    IntTryParseDigits("10");
  }

  lemma MixedPartsCompareOrdinally(x: string)
    ensures PartCompare(x, "1a") == OrdinalCompare(x, "1a")
    ensures PartCompare("1a", x) == OrdinalCompare("1a", x)
  {
    assert !IsDigit("1a"[1]);
    IntTryParseNotNumber("1a");
  }

  /** Versions can compare equal with different pre-releases: `-0` parses as
      the number 0, so `1.0.0--0` and `1.0.0-0` are neither below nor above
      each other. */
  lemma SignedPartComparesAsNumber()
    ensures Compare(Create(1, 0, 0, Str("-0")), Create(1, 0, 0, Str("0"))) == 0
    ensures !Eq(Create(1, 0, 0, Str("-0")), Create(1, 0, 0, Str("0")))
  {
    SinglePartsCompare("-0", "0");
    MinusZeroPartIsZero("-0", "0");
  }

  /** `int.TryParse` reads the part `-0` as the number zero. */
  lemma MinusZeroPartIsZero(x: string, y: string)
    requires x == "-0" && y == "0"
    ensures PartCompare(x, y) == 0
  {
    IntTryParseDigits(y);
    IntTryParseNegative(y);
    assert x == "-" + y;
  }

  // ---------------------------------------------------------------------
  // Text form

  /** Decimal digits of a non-negative number, without leading zeros. */
  function NatToString(n: nat): (r: string)
    ensures IsNumericIdentifier(r) && DigitsValue(r) == n
  {
    if n < 10 then [('0' as int + n) as char]
    else
      var r := NatToString(n / 10) + [('0' as int + n % 10) as char];
      assert r[..|r| - 1] == NatToString(n / 10);
      r
  }

  /** `int.ToString()` with the invariant culture. */
  function IntToString(n: int): string {
    if n < 0 then "-" + NatToString(-n) else NatToString(n)
  }

  /** `ToString()`: the cached text when there is one; only `default` has
      none, and then the text is built from the properties, a null part
      adding nothing. */
  function ToString(v: Version): (r: string)
    ensures v.versionString.Str? ==> r == v.versionString.s
  {
    match v.versionString
    case Str(s) => s
    case Null =>
      IntToString(v.major) + "." + IntToString(v.minor) + "." + IntToString(v.patch)
      + (if v.preRelease.Str? then "-" + v.preRelease.s else "")
      + (if v.metadata.Str? then "+" + v.metadata.s else "")
  }

  /** A parsed version prints as the exact input it was parsed from, even
      when the match covered only part of it. */
  lemma ParsedPrintsInput(input: string)
    requires Parse(input).Ok?
    ensures ToString(Parse(input).value) == input
  {
  }

  /** A constructed version prints as `""`, `Version.Min` and `Version.Max`
      included; `default` prints as `0.0.0`. */
  lemma ConstructedPrintsEmpty(major: Int32, minor: Int32, patch: Int32, prerelease: NullableString, metadata: NullableString)
    ensures ToString(Create(major, minor, patch, prerelease, metadata)) == ""
    ensures ToString(Min) == "" && ToString(Max) == ""
    ensures ToString(Default) == "0.0.0"
  {
  }
}
