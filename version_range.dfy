/** The `Spectrum.VersionRange` struct (VersionRange.cs): an interval of
    versions, written either with brackets, `[a,b]`, `(a,b)` and the mixed
    forms, or with an operator, `>=V`, `>V`, `<=V`, `<V`, or a bare `V`.
    The operator forms leave one end at `Version.Min` or `Version.Max`. */
module Ranges {
  import opened Common
  import opened Text
  import opened Versions

  datatype VersionRange = VersionRange(minVersion: Version, maxVersion: Version, includeMin: bool, includeMax: bool)

  /** `new VersionRange(min, max, includeMin, includeMax)`, whose flags
      default to an inclusive lower and an exclusive upper end. */
  function New(minVersion: Version, maxVersion: Version, includeMin: bool := true, includeMax: bool := false): (r: VersionRange)
    ensures r.minVersion == minVersion && r.maxVersion == maxVersion
    ensures r.includeMin == includeMin && r.includeMax == includeMax
  {
    VersionRange(minVersion, maxVersion, includeMin, includeMax)
  }

  /** `default(VersionRange)`. */
  const DefaultRange: VersionRange := VersionRange(Default, Default, false, false)

  /** `Contains(version)`: an included end that equals the version, or a
      version strictly between the ends. */
  predicate Contains(r: VersionRange, v: Version): (c: bool)
    ensures Greater(v, r.minVersion) && Less(v, r.maxVersion) ==> c
    ensures c && !Versions.Eq(v, r.minVersion) && !Versions.Eq(v, r.maxVersion)
            ==> Greater(v, r.minVersion) && Less(v, r.maxVersion)
    ensures c ==> GreaterEq(v, r.minVersion) || LessEq(v, r.maxVersion)
    ensures r.includeMin && Versions.Eq(v, r.minVersion) ==> c
    ensures r.includeMax && Versions.Eq(v, r.maxVersion) ==> c
  {
    (r.includeMin && Versions.Eq(v, r.minVersion))
    || ((r.includeMax && Versions.Eq(v, r.maxVersion)) || (Greater(v, r.minVersion) && Less(v, r.maxVersion)))
  }

  // ---------------------------------------------------------------------
  // Parsing

  /** A parsed version as one end of a range; a failed parse is passed on. */
  function Bound(v: Result<Version>, f: Version -> VersionRange): (r: Result<VersionRange>)
    ensures v.Err? ==> r == Err(v.error)
    ensures v.Ok? ==> r == Ok(f(v.value))
  {
    match v
    case Ok(x) => Ok(f(x))
    case Err(e) => Err(e)
  }

  /** `>=V`: `[V, Max]`. */
  function AtLeast(v: Version): VersionRange { VersionRange(v, Max, true, true) }
  /** `>V`: `(V, Max]`. */
  function Above(v: Version): VersionRange { VersionRange(v, Max, false, true) }
  /** `<=V`: `[Min, V]`. */
  function AtMost(v: Version): VersionRange { VersionRange(Min, v, true, true) }
  /** `<V`: `[Min, V)`. */
  function Below(v: Version): VersionRange { VersionRange(Min, v, true, false) }
  /** A bare `V`: `[V, V]`. */
  function Exactly(v: Version): VersionRange { VersionRange(v, v, true, true) }

  /** The operators of the operator forms; `Exact` is a bare version. */
  datatype Operator = AtLeastOp | AboveOp | AtMostOp | BelowOp | ExactOp

  /** The operator `input` starts with and its length, tried in the order
      `>=`, `>`, `<=`, `<`. */
  function ReadOperator(input: string): (r: (Operator, nat))
    ensures r.1 <= |input|
  {
    if StartsWith(input, ">=") then (AtLeastOp, 2)
    else if StartsWithChar(input, '>') then (AboveOp, 1)
    else if StartsWith(input, "<=") then (AtMostOp, 2)
    else if StartsWithChar(input, '<') then (BelowOp, 1)
    else (ExactOp, 0)
  }

  /** The range an operator makes of its version. */
  function WithOperator(op: Operator, v: Version): VersionRange {
    match op
    case AtLeastOp => AtLeast(v)
    case AboveOp => Above(v)
    case AtMostOp => AtMost(v)
    case BelowOp => Below(v)
    case ExactOp => Exactly(v)
  }

  /** The operator forms; the text after the operator is parsed as a
      version. */
  function OperatorForm(input: string): Result<VersionRange> {
    var (op, n) := ReadOperator(input);
    match Versions.Parse(input[n..])
    case Ok(v) => Ok(WithOperator(op, v))
    case Err(e) => Err(e)
  }

  /** The bracket forms: the first and last characters are dropped and what
      is left must be two versions separated by a comma. A side without a
      bracket keeps its inclusive default. */
  function BracketForm(input: string): Result<VersionRange> {
    var includeMin := if StartsWithChar(input, '[') then true else if StartsWithChar(input, '(') then false else true;
    var includeMax := if EndsWithChar(input, ']') then true else if EndsWithChar(input, ')') then false else true;
    if |input| < 2 then Err(ArgumentOutOfRangeException)
    else
      var versions := Split(input[1..|input| - 1], ',');
      if |versions| != 2 then Err(FormatException)
      else
        match Versions.Parse(versions[0])
        case Err(e) => Err(e)
        case Ok(minVersion) =>
          match Versions.Parse(versions[1])
          case Err(e) => Err(e)
          case Ok(maxVersion) => Ok(VersionRange(minVersion, maxVersion, includeMin, includeMax))
  }

  /** The input starts with `[` or `(`, or ends with `]` or `)`. */
  predicate HasBracket(input: string) {
    StartsWithChar(input, '[') || StartsWithChar(input, '(') || EndsWithChar(input, ']') || EndsWithChar(input, ')')
  }

  /** `VersionRange.Parse(input)`. Slicing off the brackets of a one-character
      input is the only way to raise an `ArgumentOutOfRangeException`. */
  function Parse(input: string): (r: Result<VersionRange>)
    ensures r == Err(ArgumentOutOfRangeException) <==> |input| == 1 && HasBracket(input)
  {
    if !(StartsWithChar(input, '[') || StartsWithChar(input, '(')) && !(EndsWithChar(input, ']') || EndsWithChar(input, ')')) then
      OperatorForm(input)
    else
      BracketForm(input)
  }

  /** `VersionRange.TryParse(input, out range)`: it never throws; every
      exception of `Parse` becomes `(false, default)`. */
  function TryParse(input: string): (r: (bool, VersionRange))
    ensures r.0 <==> Parse(input).Ok?
    ensures r.0 ==> r.1 == Parse(input).value
    ensures !r.0 ==> r.1 == DefaultRange
  {
    match Parse(input)
    case Ok(range) => (true, range)
    case Err(_) => (false, DefaultRange)
  }

  // ---------------------------------------------------------------------
  // Equality and text

  /** The range with the cached texts of its ends cleared. */
  function WithoutText(r: VersionRange): VersionRange {
    r.(minVersion := r.minVersion.(versionString := Null), maxVersion := r.maxVersion.(versionString := Null))
  }

  /** `Equals`, `==`: both ends equal as versions and both flags equal. */
  function Eq(a: VersionRange, b: VersionRange): (r: bool)
    ensures r <==> WithoutText(a) == WithoutText(b)
  {
    Versions.Eq(a.minVersion, b.minVersion) && Versions.Eq(a.maxVersion, b.maxVersion)
    && a.includeMin == b.includeMin && a.includeMax == b.includeMax
  }

  /** `!=`. */
  function Neq(a: VersionRange, b: VersionRange): (r: bool)
    ensures r <==> WithoutText(a) != WithoutText(b)
  {
    !Eq(a, b)
  }

  /** The bracket form of two texts: `[` or `(`, the first text, `, `, the
      second text, and `]` or `)`. */
  function Bracketed(includeMin: bool, a: string, b: string, includeMax: bool): (t: string)
    ensures |t| == |a| + |b| + 4
    ensures t[0] == '[' <==> includeMin
    ensures t[|t| - 1] == ']' <==> includeMax
    ensures t[1..1 + |a|] == a && t[1 + |a|..3 + |a|] == ", " && t[3 + |a|..|t| - 1] == b
  {
    var (open, close) := (if includeMin then "[" else "(", if includeMax then "]" else ")");
    var rest := ", " + (b + close);
    var t := open + (a + rest);
    assert t[1..] == a + rest;
    assert t[1 + |a|..] == rest;
    assert t[3 + |a|..] == b + close;
    t
  }

  /** `ToString()`: the bracket form with `, ` between the ends. */
  function ToString(r: VersionRange): (t: string)
    ensures |t| == |Versions.ToString(r.minVersion)| + |Versions.ToString(r.maxVersion)| + 4
    ensures t[0] == '[' <==> r.includeMin
    ensures t[|t| - 1] == ']' <==> r.includeMax
    ensures var (a, b) := (Versions.ToString(r.minVersion), Versions.ToString(r.maxVersion));
      t[1..1 + |a|] == a && t[1 + |a|..3 + |a|] == ", " && t[3 + |a|..|t| - 1] == b
  {
    Bracketed(r.includeMin, Versions.ToString(r.minVersion), Versions.ToString(r.maxVersion), r.includeMax)
  }

  // ---------------------------------------------------------------------
  // The operator forms

  /** The text after an operator, when it does not end with a closing
      bracket (which would send the input to the bracket forms). */
  predicate NoClosingBracket(s: string) {
    !EndsWithChar(s, ']') && !EndsWithChar(s, ')')
  }

  /** The input an operator form reads: it has no bracket, and the operator
      `op` of length `n` is followed by `s`. */
  predicate ReadsAs(input: string, op: Operator, n: nat, s: string) {
    !HasBracket(input) && ReadOperator(input) == (op, n) && input[n..] == s
  }

  /** An input without brackets is the operator applied to the parse of
      the text after it. */
  lemma OperatorParse(input: string, op: Operator, n: nat, s: string)
    requires ReadsAs(input, op, n, s)
    ensures Parse(input) ==
      match Versions.Parse(s)
      case Err(e) => Err(e)
      case Ok(v) => Ok(WithOperator(op, v))
  {
    assert Parse(input) == OperatorForm(input);
  }

  /** The text after a two-character operator. */
  lemma ReadsTwo(op: string, s: string)
    requires |op| == 2 && NoClosingBracket(s) && op[0] in "><" && op[1] == '='
    ensures var input := op + s; input[..2] == op && input[2..] == s && !HasBracket(input)
  {
    var input := op + s;
    assert input[..2] == op && input[2..] == s && input[0] == op[0];
    assert s != [] ==> input[|input| - 1] == s[|s| - 1];
  }

  /** The text after a one-character operator not followed by `=`. */
  lemma ReadsOne(op: char, s: string)
    requires NoClosingBracket(s) && !StartsWithChar(s, '=') && op in "><"
    ensures var input := [op] + s;
      input[1..] == s && !HasBracket(input) && !StartsWith(input, [op, '='])
  {
    var input := [op] + s;
    assert input[1..] == s;
    if |input| >= 2 {
      assert input[..2][1] == s[0];
    }
    assert s != [] ==> input[|input| - 1] == s[|s| - 1];
  }

  /** `>=V` is `[V, Max]`. */
  lemma ParseAtLeast(s: string)
    requires NoClosingBracket(s)
    ensures Parse(">=" + s) == Bound(Versions.Parse(s), AtLeast)
  {
    ReadsTwo(">=", s);
    OperatorParse(">=" + s, AtLeastOp, 2, s);
  }

  /** `>V` is `(V, Max]`. */
  lemma ParseAbove(s: string)
    requires NoClosingBracket(s) && !StartsWithChar(s, '=')
    ensures Parse(">" + s) == Bound(Versions.Parse(s), Above)
  {
    ReadsOne('>', s);
    OperatorParse(">" + s, AboveOp, 1, s);
  }

  /** `<=V` is `[Min, V]`. */
  lemma ParseAtMost(s: string)
    requires NoClosingBracket(s)
    ensures Parse("<=" + s) == Bound(Versions.Parse(s), AtMost)
  {
    assert ReadsAs("<=" + s, AtMostOp, 2, s) by {
      ReadsTwo("<=", s);
      assert !StartsWith("<=" + s, ">=") && !StartsWithChar("<=" + s, '>');
    }
    OperatorParse("<=" + s, AtMostOp, 2, s);
  }

  /** `<V` is `[Min, V)`. */
  lemma ParseBelow(s: string)
    requires NoClosingBracket(s) && !StartsWithChar(s, '=')
    ensures Parse("<" + s) == Bound(Versions.Parse(s), Below)
  {
    assert ReadsAs("<" + s, BelowOp, 1, s) by {
      ReadsOne('<', s);
      assert !StartsWith("<" + s, ">=") && !StartsWithChar("<" + s, '>');
    }
    OperatorParse("<" + s, BelowOp, 1, s);
  }

  /** A bare `V` is `[V, V]`. */
  lemma ParseExact(s: string)
    requires NoClosingBracket(s)
    requires !StartsWithChar(s, '[') && !StartsWithChar(s, '(') && !StartsWithChar(s, '>') && !StartsWithChar(s, '<')
    ensures Parse(s) == Bound(Versions.Parse(s), Exactly)
  {
    if |s| >= 2 {
      assert s[..2] != ">=" && s[..2] != "<=";
    }
    assert s[0..] == s;
    OperatorParse(s, ExactOp, 0, s);
  }

  /** `[V, V]` contains exactly the versions equal to `V`. */
  lemma ExactContainsOnlyEqual(v: Version, w: Version)
    ensures Contains(VersionRange(v, v, true, true), w) <==> Versions.Eq(w, v)
  {
  }

  /** A version that differs from `V` only in its metadata is not in `>=V`:
      it is not equal to `V`, and the order sees no difference. */
  lemma AtLeastMissesOtherMetadata(v: Version, m: string)
    requires v.metadata != Str(m) && m != ""
    ensures !Contains(VersionRange(v, Max, true, true), v.(metadata := Str(m)))
  {
    MetadataIgnoredByOrder(v, v, Str(m));
  }

  /** An operator form prints its sentinel end as `""`, because `Version.Min`
      and `Version.Max` print as `""`: `>=V` prints as `[V, ]`. */
  lemma AtLeastPrintsEmptyMax(s: string)
    requires NoClosingBracket(s) && Versions.Parse(s).Ok?
    ensures Parse(">=" + s).Ok? && ToString(Parse(">=" + s).value) == "[" + s + ", ]"
  {
    ParseAtLeast(s);
    ParsedPrintsInput(s);
    AtLeastPrints(Versions.Parse(s).value);
  }

  /** `[V, Max]` prints its upper end as `""`. */
  lemma AtLeastPrints(v: Version)
    ensures ToString(AtLeast(v)) == "[" + Versions.ToString(v) + ", ]"
  {
    ConstructedPrintsEmpty(0, 0, 0, Null, Null);
  }


  // ---------------------------------------------------------------------
  // The bracket forms

  /** `[a,b]`, `(a,b)`, `[a,b)` and `(a,b]`: the ends are the two versions,
      a square bracket includes its end and a round one excludes it. */
  lemma ParseInterval(open: char, a: string, b: string, close: char)
    requires open == '[' || open == '('
    requires close == ']' || close == ')'
    requires ',' !in a && ',' !in b
    ensures Parse([open] + a + "," + b + [close]) ==
      match Versions.Parse(a)
      case Err(e) => Err(e)
      case Ok(minVersion) =>
        match Versions.Parse(b)
        case Err(e) => Err(e)
        case Ok(maxVersion) => Ok(VersionRange(minVersion, maxVersion, open == '[', close == ']'))
  {
    var input := [open] + a + "," + b + [close];
    assert Parse(input) == BracketForm(input);
    IntervalSplits(open, a, b, close);
  }

  /** Dropping the brackets of `[a,b]` leaves `a` and `b` around the comma. */
  lemma IntervalSplits(open: char, a: string, b: string, close: char)
    requires ',' !in a && ',' !in b
    ensures var input := [open] + a + "," + b + [close];
      |input| >= 2 && Split(input[1..|input| - 1], ',') == [a, b]
  {
    var input := [open] + a + "," + b + [close];
    var inner := a + "," + b;
    assert input[1..|input| - 1] == inner;
    assert inner[..|a|] == a && inner[|a| + 1..] == b;
    IndexOfFirst(inner, ',', |a|);
  }

  /** When a bracket form parses, each flag is false exactly when its end
      has a round bracket; a side with no bracket at all is inclusive. */
  lemma BracketFlags(input: string)
    requires HasBracket(input) && Parse(input).Ok?
    ensures Parse(input).value.includeMin <==> !StartsWithChar(input, '(')
    ensures Parse(input).value.includeMax <==> !EndsWithChar(input, ')')
  {
  }

  /** A bracket form whose inside is not exactly two comma-separated pieces
      is a format error. */
  lemma BracketNeedsTwoPieces(input: string)
    requires HasBracket(input) && |input| >= 2
    requires |Split(input[1..|input| - 1], ',')| != 2
    ensures Parse(input) == Err(FormatException)
  {
  }

  // ---------------------------------------------------------------------
  // Containment

  /** Inclusive ends are contained and exclusive ends are not, whatever the
      two versions. */
  lemma EndsFollowFlags(a: Version, b: Version)
    ensures Contains(VersionRange(a, b, true, true), a) && Contains(VersionRange(a, b, true, true), b)
    ensures !Contains(VersionRange(a, b, false, false), a) && !Contains(VersionRange(a, b, false, false), b)
  {
  }

  /** Equal ranges contain equal versions alike. */
  lemma ContainsRespectsEq(r1: VersionRange, r2: VersionRange, v: Version, w: Version)
    requires Eq(r1, r2) && Versions.Eq(v, w)
    ensures Contains(r1, v) <==> Contains(r2, w)
  {
    EqualVersionsCompareAlike(v, w, r1.minVersion);
    EqualVersionsCompareAlike(v, w, r1.maxVersion);
    EqualVersionsCompareAlike(r1.minVersion, r2.minVersion, w);
    EqualVersionsCompareAlike(r1.maxVersion, r2.maxVersion, w);
  }
}
