# Spectrum mod loader — a Dafny model

This project models the core of Spectrum, a mod loader for .NET games, and proves properties of that model. The core has three parts:

- **`Version`** (Version.cs): a semantic version. It is parsed with the Semantic Versioning 2.0.0 regular expression, *without* its `^…$` anchors, through `Regex.Match`. It has field-wise equality, a hand-written `CompareTo` behind `<`, `<=`, `>`, `>=`, and a `ToString` that returns the cached input text.
- **`VersionRange`** (VersionRange.cs): an interval of versions. It is written with brackets (`[a,b]`, `(a,b)`, mixed) or with an operator (`>=V`, `>V`, `<=V`, `<V`, bare `V`), and has `Contains`, an exception-swallowing `TryParse`, equality and `ToString`.
- **`SpectrumLoader<TModType>`** (SpectrumLoader.cs) does four things:
  - registers the `[ModInfo]` types of mod assemblies into `_mods` and `_dependencies`, rejecting duplicate ids;
  - checks every declared dependency, either exiting the process or carrying on, depending on `crashOnDependencyError`;
  - sorts `_mods` by dependency counts;
  - instantiates the mods into `_loadedMods` and `_modInfos`, then calls their `Loaded` hooks.

Layout, one module per file:

| file | module | models |
|---|---|---|
| `common.dfy` | `Common` | `Option`, `Result`, the .NET exceptions, `int` as `Int32`, `int.CompareTo` |
| `text.dfy` | `Text` | character classes, `int.TryParse`, ordinal `string.Compare`, `string.Split(char)` |
| `semver_regex.dfy` | `SemverRegex` | the regular expression of Version.cs:9 as a deterministic recogniser: leftmost start, first alternative that succeeds, greedy repetition |
| `version.dfy` | `Versions` | `Version`: `Parse`, `TryParse`, equality, `CompareTo` (a method with its loop), `ToString`, `Min`, `Max` |
| `version_range.dfy` | `Ranges` | `VersionRange`: constructor, `Contains`, `Parse`, `TryParse`, equality, `ToString` |
| `dict.dfy` | `Dict` | `Dictionary<K, V>` as an insertion-ordered sequence of pairs with unique keys |
| `stable_sort.dfy` | `StableSort` | LINQ's stable `OrderBy` on a numeric key |
| `loader.dfy` | `Loader` | the registry, the dependency check, the sort, loading, and `class SpectrumLoader` whose methods update its fields |

Modelling choices:

- A C# `string` that may be `null` is a `NullableString`.
- `int` is `Int32`, a subset type of `int`. `int.Parse` overflow is the result `Err(OverflowException)`.
- An exception is the `Err` case of `Result`.
- `Environment.Exit(1)` is the outcome `Exited`.
- What Mono.Cecil reads from an assembly arrives as `AssemblyRecord` and `TypeRecord` values.
- Instantiating a mod is a parameter `create: ModEntry -> Option<M>`. `None` is an instantiation that throws.

The model follows the code where the code departs from Semantic Versioning or from the loader's own comments:

- An absent pre-release is stored as `""`, so `1.0.0` orders *below* `1.0.0-alpha`.
- The order is not transitive. A cycle of three versions is proved.
- Metadata is ignored by the order but not by `==`.
- `ToString` returns the whole input text, not a canonical rendering. A constructed version, `Min` and `Max` all print as `""`.
- The load-order sort is a heuristic, not a topological sort.
- In lenient mode, mods with failed dependencies are not removed.

## Model

| member | source | states |
|---|---|---|
| `Common.CompareInt` | Version.cs:75 | `int.CompareTo` is negative exactly when the left is smaller and zero exactly when both are equal |
| `Text.ParseInt32` | Version.cs:34-36 | `int.Parse` of a digit string succeeds exactly when its value is at most `int.MaxValue`, yields that value, and otherwise throws `OverflowException` |
| `Text.LeadingWhite` | Version.cs:107 | the white space `int.TryParse` skips at the start: all white, and followed by a non-white character or the end |
| `Text.TrailingWhite` | Version.cs:107 | the white space `int.TryParse` skips at the end: all white, and preceded by a non-white character or the start |
| `Text.IntTryParseUntrimmed` | Version.cs:107 | text with no white space at either end is read as a signed number |
| `Text.IntTryParseNeedsDigit` | Version.cs:107 | the empty string is not an `int`, nor is text that does not end in white space and starts with a letter or with `-` not followed by a digit |
| `Text.IntTryParseDigits` | Version.cs:107 | a digit string whose value fits in an `int` parses to that value |
| `Text.IntTryParseNotNumber` | Version.cs:107 | text that starts with a digit but also holds a non-digit (and does not end in white space) is not an `int` |
| `Text.IntTryParseNegative` | Version.cs:107 | `-` followed by digits parses to the negated value, so `-0` reads as 0 |
| `Text.SignedNumber` | Version.cs:107 | an optional sign and digits are read only when the text ends in a digit, and a negative value only when it starts with `-` |
| `Text.IntTryParseSeesDigit` | Version.cs:107 | `int.TryParse` succeeds only on text that holds a digit, and gives a negative value only for text that holds `-` |
| `Text.OrdinalCompare` | Version.cs:117 | ordinal `string.Compare` is in -1..1 and is 0 exactly for equal strings |
| `Text.OrdinalCompareAntisymmetric` | Version.cs:117 | swapping the operands of the ordinal comparison negates it |
| `Text.IndexOf` | VersionRange.cs:73 | the first occurrence of the separator: it is there and not before |
| `Text.Split` | Version.cs:95-96 | `string.Split(char)` gives at least one piece and no piece holds the separator |
| `Text.JoinSplit` | VersionRange.cs:73 | joining the pieces of a split with the separator gives back the string |
| `Text.SplitJoin` | VersionRange.cs:73 | splitting the join of separator-free pieces gives back the pieces |
| `SemverRegex.Digits` | Version.cs:9 | `\d*` greedily: a digit prefix, followed by a non-digit or the end |
| `SemverRegex.IdentChars` | Version.cs:9 | `[0-9a-zA-Z-]*` greedily, non-empty when the text starts with such a character |
| `SemverRegex.NumericIdentifier` | Version.cs:9 | `0` or `[1-9]\d*` matches exactly when the text starts with a digit, and what it takes is a numeric identifier: `0` alone after a leading zero, otherwise every digit of the run |
| `SemverRegex.PreReleaseIdentifier` | Version.cs:9 | one pre-release identifier matches exactly when the text starts with an identifier character, and what it takes is a valid identifier; after a digit the first alternative commits, so `1a` yields `1`; otherwise the whole run of identifier characters is taken |
| `SemverRegex.DottedIdentifiers` | Version.cs:9 | `(?:\.(identifier))*` splits the text into dotted valid identifiers and the rest, repeating as long as a dot and an identifier character follow, and the last identifier is taken as the identifier alternatives would take it |
| `SemverRegex.DottedRuns` | Version.cs:9 | `(?:\.[0-9a-zA-Z-]+)*` splits the text into dotted non-empty runs and the rest, repeating as long as a dot and an identifier character follow, each run taken whole |
| `SemverRegex.PreReleaseGroup` | Version.cs:9 | the optional `-(?<prerelease>…)` group either takes nothing or takes `-` followed by the group; it captures exactly when the text starts with `-` and an identifier character, and stops where no further dot and identifier character follow |
| `SemverRegex.BuildGroup` | Version.cs:9 | the optional `\+(?<buildmetadata>…)` group either takes nothing or takes `+` followed by the group; it captures exactly when the text starts with `+` and an identifier character, and then runs to the end of the identifier characters and dotted runs |
| `SemverRegex.PreReleaseGroupWellFormed` | Version.cs:9 | a captured pre-release is dot-separated valid identifiers |
| `SemverRegex.BuildGroupWellFormed` | Version.cs:9 | captured build metadata is dot-separated non-empty runs of identifier characters |
| `SemverRegex.PreReleaseSplits` | Version.cs:9 | joining valid identifiers with dots gives a valid pre-release |
| `SemverRegex.BuildMetadataSplits` | Version.cs:9 | joining non-empty runs with dots gives valid build metadata |
| `SemverRegex.MatchPrefixSound` | Version.cs:9 | a match at the start spells out its groups followed by the rest of the text, and the groups are well formed |
| `SemverRegex.DigitsExact` | Version.cs:9 | greedy `\d*` stops at the first non-digit |
| `SemverRegex.NumericIdentifierExact` | Version.cs:9 | a numeric identifier followed by a dot is taken whole |
| `SemverRegex.MatchPrefixComplete` | Version.cs:9 | the pattern matches at the start of the text exactly when the text starts with `MAJOR.MINOR.PATCH`: backtracking could find nothing more |
| `SemverRegex.CoreIsMatched` | Version.cs:9 | text starting with `MAJOR.MINOR.PATCH` is matched |
| `SemverRegex.MatchIsCore` | Version.cs:9 | a match means the text starts with `MAJOR.MINOR.PATCH` |
| `SemverRegex.RenderedIsCore` | Version.cs:9 | well-formed groups spelled out start with `MAJOR.MINOR.PATCH` |
| `SemverRegex.ThreeNumbersAreCore` | Version.cs:9 | three numeric identifiers joined by dots are `MAJOR.MINOR.PATCH`, whatever follows |
| `SemverRegex.MatchAtComplete` | Version.cs:9 | at every start position, the pattern matches exactly when `MAJOR.MINOR.PATCH` starts there |
| `SemverRegex.ScanFinds` | Version.cs:29 | the scan of `Regex.Match` from position p stops at the first start where the pattern matches, and finds nothing when there is none |
| `SemverRegex.FirstMatch` | Version.cs:29 | the groups of the match `Regex.Match` finds are well formed |
| `SemverRegex.FirstMatchLeftmost` | Version.cs:29 | `Regex.Match` returns the leftmost match, and fails only when the pattern matches at no position |
| `SemverRegex.FirstMatchIff` | Version.cs:29-30 | `Regex.Match` succeeds exactly when some position of the input starts `MAJOR.MINOR.PATCH` |
| `SemverRegex.FirstMatchLocates` | Version.cs:29 | the match starts at the leftmost position where `MAJOR.MINOR.PATCH` starts, and at no earlier one |
| `SemverRegex.NoCoreBefore` | Version.cs:29 | where the pattern does not match, `MAJOR.MINOR.PATCH` does not start |
| `SemverRegex.MatchAtLocates` | Version.cs:29 | the text a match covers is found in the input at the match position |
| `SemverRegex.MatchPrefix` | Version.cs:9 | a match at the start takes at least `0.0.0`, five characters, before the rest |
| `SemverRegex.Scan` | Version.cs:29 | a match found from position p is at or after p, and the pattern matches there with the groups and rest it reports |
| `SemverRegex.DigitsReads` | Version.cs:9 | greedy `\d*` on digits followed by a non-digit takes exactly those digits |
| `SemverRegex.IdentCharsReads` | Version.cs:9 | greedy `[0-9a-zA-Z-]*` on a run followed by another character takes exactly that run |
| `SemverRegex.NumericIdentifierReads` | Version.cs:9 | a numeric identifier followed by a non-digit is taken whole |
| `SemverRegex.ReadableIdentifierReads` | Version.cs:9 | a numeric identifier, or an identifier that starts with a letter or `-`, followed by a non-identifier character is taken whole |
| `SemverRegex.DottedIdentifiersReads` | Version.cs:9 | dotted identifiers of that kind, followed by text that does not continue them, are taken exactly |
| `SemverRegex.DottedRunsReads` | Version.cs:9 | dotted non-empty runs, followed by text that does not continue them, are taken exactly |
| `SemverRegex.PreReleaseGroupReads` | Version.cs:9 | `-` and a pre-release of that kind, followed by text that does not continue it, is captured exactly |
| `SemverRegex.BuildGroupReads` | Version.cs:9 | `+` and build metadata, followed by text that does not continue it, is captured exactly |
| `SemverRegex.BuildSuffixReads` | Version.cs:9 | the spelled-out build part of a version is captured exactly as the metadata |
| `SemverRegex.PreReleaseSuffixReads` | Version.cs:9 | the spelled-out pre-release part, followed by the build part, is captured exactly as the pre-release |
| `SemverRegex.MatchPrefixOfParts` | Version.cs:9 | three numbers with dots and captured groups after them are matched as those groups |
| `SemverRegex.MatchPrefixReads` | Version.cs:9 | the pattern reads back well-formed groups spelled out, when each pre-release identifier is numeric or starts with a letter or `-` and the text after does not continue the match |
| `SemverRegex.ReadablePair` | Version.cs:9 | two such identifiers joined by a dot form such a pre-release |
| `SemverRegex.RunPair` | Version.cs:9 | two non-empty runs joined by a dot form build metadata |
| `SemverRegex.PreReleaseStopsAtDigitLed` | Version.cs:9 | on `-1a` the pre-release group captures only `1` |
| `SemverRegex.MatchPrefixStopsAtDigitLedIdentifier` | Version.cs:9 | `1.0.0-1a` matches `1.0.0-1`, leaving `a` |
| `SemverRegex.FirstMatchStopsAtDigitLedIdentifier` | Version.cs:29 | `Regex.Match` on `1.0.0-1a` finds the match at position 0 with pre-release `1` |
| `SemverRegex.NoMatchAtLetter` | Version.cs:29 | no match starts at the `v` of `v1.2.3` |
| `SemverRegex.MatchAfterLetter` | Version.cs:29 | the match after the `v` of `v1.2.3` takes the rest of the text |
| `SemverRegex.FirstMatchSkipsLeadingText` | Version.cs:29 | `Regex.Match` on `v1.2.3` skips the `v` and matches `1.2.3` at position 1 |
| `Versions.Create` | Version.cs:18-25 | the constructor keeps the three numbers, turns a null pre-release or metadata into `""`, and leaves the cached text `""` |
| `Versions.FromGroups` | Version.cs:34-39 | the groups give a version exactly when all three numbers fit in an `int`; it holds their values, the two groups and the input text, and otherwise `OverflowException` is thrown |
| `Versions.Parse` | Version.cs:27-40 | `Parse` fails only with `FormatException` or `OverflowException`; a parsed version has non-negative numbers, non-null groups and the input as its cached text |
| `Versions.ParseFormatError` | Version.cs:27-33 | `Parse` throws `FormatException` exactly when no position of the input starts `MAJOR.MINOR.PATCH` |
| `Versions.ParseReadsLeftmostMatch` | Version.cs:34-39 | a parsed version holds the values of the three numbers and the two groups of the leftmost match |
| `Versions.ParseOverflow` | Version.cs:34-36 | `Parse` throws `OverflowException` exactly when a match is found and one of its numbers exceeds `int.MaxValue` |
| `Versions.ParseRendered` | Version.cs:27-40 | a version spelled out from well-formed groups, with text after it that does not continue the match, parses to those numbers and groups |
| `Versions.WholeGroupsWellFormed` | Version.cs:9 | the groups of `1.2.34-alpha+b` are well formed and their numbers are 1, 2 and 34 |
| `Versions.ParseReadsWholeGroups` | Version.cs:27-40 | `1.2.34-alpha+b` parses to 1, 2, 34 with pre-release `alpha` and metadata `b` |
| `Versions.ParseReadsDottedGroups` | Version.cs:27-40 | `1.0.0-alpha.1+b.5` parses with pre-release `alpha.1` and metadata `b.5` |
| `Versions.ParseSkipsLeadingText` | Version.cs:27-40 | `v1.2.3` parses to 1.2.3 with empty groups and the whole input as its cached text |
| `Versions.ParseStopsAtDigitLedIdentifier` | Version.cs:27-40 | `1.0.0-1a` parses with pre-release `1`: the first alternative commits and the rest of the pattern is optional |
| `Versions.TryParse` | Version.cs:41-56 | `TryParse` gives `(true, Parse(input))` on success and `(false, default)` when nothing matches, but lets an overflow escape |
| `Versions.Eq` | Version.cs:63-68 | `==` holds exactly when the five public properties agree, metadata included; the cached text plays no part, so `==` is an equivalence |
| `Versions.Neq` | Version.cs:69 | `!=` is the negation of `==` |
| `Versions.PartCompare` | Version.cs:107-121 | one pre-release part against another is in -1..1 and equal parts compare 0 |
| `Versions.PartsCompare` | Version.cs:97-123 | the part lists compare in -1..1, equal lists compare 0, and a strict prefix is smaller; the general first-difference rule is `PartsCompareFirstDifference` |
| `Versions.CompareTo` | Version.cs:71-126 | the method with its loop over the pre-release parts computes `Compare` |
| `Versions.Compare` | Version.cs:71-126 | the first of major, minor and patch that differs decides the order numerically, and the order is never 0 then; equal numbers and equal pre-releases compare 0; the rule for differing pre-releases of any number of parts is `CompareFirstDifferingPart` |
| `Versions.CompareAntisymmetric` | Version.cs:71-126 | swapping the operands negates the comparison |
| `Versions.Less` | Version.cs:128 | `a < b` exactly when `b > a`, and then not `a >= b` |
| `Versions.LessEq` | Version.cs:129 | `a <= b` exactly when `b >= a`, and otherwise `a > b` |
| `Versions.Greater` | Version.cs:130 | `a > b` exactly when `b` compares below `a` |
| `Versions.GreaterEq` | Version.cs:131 | `a >= b` exactly when `b` compares at most `a` |
| `Versions.EqualVersionsCompareAlike` | Version.cs:63-126 | versions that are `==` compare 0 and compare alike against any third version |
| `Versions.CoreOrderIsLexicographic` | Version.cs:73-84 | when major, minor or patch differ, the order is lexicographic on them and never 0 |
| `Versions.MetadataIgnoredByOrder` | Version.cs:65-126 | changing the metadata never changes a comparison, and `1.0.0` vs `1.0.0+build` compares 0 yet is not `==` |
| `Versions.ReleaseBelowPreRelease` | Version.cs:23-123 | with equal numbers, a release (pre-release `""`) is *below* any version with a pre-release |
| `Versions.MinIsLeast` | Version.cs:141 | `Version.Min` is at most every parsed version, and below `default(Version)` |
| `Versions.MaxIsNotGreatest` | Version.cs:140 | `Version.Max` is below `2147483647.2147483647.2147483647-alpha` |
| `Versions.SinglePartsCompare` | Version.cs:95-122 | two single-part pre-releases compare as their parts |
| `Versions.PartsCompareFirstDifference` | Version.cs:97-125 | when the first k parts compare 0 pairwise, the k-th pair decides if it compares non-zero; otherwise the list that runs out first is smaller (-1 or 1), and lists of equal length compare 0 |
| `Versions.CompareFirstDifferingPart` | Version.cs:95-125 | with equal numbers and two non-null pre-releases, `Compare` follows the same rule on the dot-separated parts: the first pair comparing non-zero decides, else the shorter part list is smaller, else 0 |
| `Versions.LeadingZeroPartIsEqual` | Version.cs:107-113 | `01` and `1` both pass `int.TryParse` and compare 0 as numbers |
| `Versions.NumericallyEqualPartThenShorter` | Version.cs:97-102 | `[01]` against `[1, x]` is -1: the common part compares 0 and the left list runs out first |
| `Versions.NumericallyEqualPreReleaseThenShorter` | Version.cs:95-102 | `1.0.0-01` is below `1.0.0-1.x` |
| `Versions.OrderHasCycle` | Version.cs:107-121 | pre-releases `9 < 10 < 1a < 9`: the order is not transitive |
| `Versions.NumbersCompareNumerically` | Version.cs:107-113 | numeric parts compare as numbers: `9` is below `10` |
| `Versions.MixedPartsCompareOrdinally` | Version.cs:107-121 | a part against `1a` (not an `int`) compares ordinally |
| `Versions.MinusZeroPartIsZero` | Version.cs:107-113 | the parts `-0` and `0` compare 0 as numbers |
| `Versions.SignedPartComparesAsNumber` | Version.cs:107-113 | parts `-0` and `0` compare 0 because both pass `int.TryParse`, though the versions are not `==` |
| `Versions.NatToString` | Version.cs:137 | a number is printed as a numeric identifier whose value is the number |
| `Versions.ToString` | Version.cs:135-138 | `ToString` returns the cached text whenever there is one |
| `Versions.ParsedPrintsInput` | Version.cs:39 | a parsed version prints as the whole input, including text around the match |
| `Versions.ConstructedPrintsEmpty` | Version.cs:11-25 | a constructed version, `Min` and `Max` print as `""`, and `default(Version)` as `0.0.0` |
| `Ranges.New` | VersionRange.cs:16-22 | the constructor stores both ends and both flags, inclusive-min and exclusive-max by default |
| `Ranges.Contains` | VersionRange.cs:24-27 | a version `==` to the lower end is contained when `includeMin`, one `==` to the upper end when `includeMax`, and one strictly between the ends always; a contained version that is `==` to neither end lies strictly between them; a contained version is at least the lower end or at most the upper end |
| `Ranges.Parse` | VersionRange.cs:29-82 | `Parse` throws `ArgumentOutOfRangeException` exactly for a one-character input with a bracket |
| `Ranges.OperatorParse` | VersionRange.cs:35-61 | an input with no bracket at either end is its operator applied to the version after it, and a failed version parse is passed on |
| `Ranges.ParseAtLeast` | VersionRange.cs:37-40 | `>=V` is `[V, Max]` |
| `Ranges.ParseAbove` | VersionRange.cs:41-45 | `>V` is `(V, Max]` |
| `Ranges.ParseAtMost` | VersionRange.cs:46-49 | `<=V` is `[Min, V]` |
| `Ranges.ParseBelow` | VersionRange.cs:50-54 | `<V` is `[Min, V)` |
| `Ranges.ParseExact` | VersionRange.cs:55-61 | a bare `V` is `[V, V]` |
| `Ranges.ExactContainsOnlyEqual` | VersionRange.cs:24-27 | `[V, V]` contains exactly the versions `==` to V |
| `Ranges.AtLeastMissesOtherMetadata` | VersionRange.cs:24-27 | `[V, Max]` misses V with other metadata, which is neither `==` to V nor above it |
| `Ranges.EndsFollowFlags` | VersionRange.cs:24-27 | `[a,b]` contains both ends and `(a,b)` neither |
| `Ranges.ContainsRespectsEq` | VersionRange.cs:24-27 | `Contains` agrees on equal ranges and equal versions |
| `Ranges.ParseInterval` | VersionRange.cs:63-80 | `[a,b]`, `(a,b)`, `[a,b)` and `(a,b]` with comma-free `a` and `b` parse to the two versions; a square bracket includes its end |
| `Ranges.IntervalSplits` | VersionRange.cs:73 | dropping the brackets of `[a,b]` and splitting on `,` gives `a` and `b` |
| `Ranges.BracketFlags` | VersionRange.cs:65-72 | a parsed bracket form includes an end exactly when its side has no round bracket, so a side with no bracket is inclusive |
| `Ranges.BracketNeedsTwoPieces` | VersionRange.cs:73-77 | a bracket form without exactly two comma-separated pieces throws `FormatException` |
| `Ranges.TryParse` | VersionRange.cs:83-95 | `TryParse` never throws: `true` with `Parse`'s range exactly when `Parse` succeeds, otherwise `false` with `default` |
| `Ranges.Eq` | VersionRange.cs:97-100 | two ranges are `==` exactly when their ends and flags agree once the cached texts are set aside, so `==` is an equivalence |
| `Ranges.Neq` | VersionRange.cs:116-119 | `!=` is the negation of `==` |
| `Ranges.Bracketed` | VersionRange.cs:109 | the bracket form of two texts is the opening bracket, the first text, `, `, the second text and the closing bracket, at those exact positions |
| `Ranges.ToString` | VersionRange.cs:107-110 | the text opens with `[` exactly when the lower end is included and closes with `]` exactly when the upper end is; between them come the lower end's text, then `, `, then the upper end's text, in that order |
| `Ranges.AtLeastPrints` | VersionRange.cs:107-110 | `[V, Max]` prints its upper end as `""` |
| `Ranges.AtLeastPrintsEmptyMax` | VersionRange.cs:107-110 | `>=V` prints as `[V, ]` |
| `Dict.Keys` | SpectrumLoader.cs:29 | the keys of a dictionary in enumeration order |
| `Dict.Values` | SpectrumLoader.cs:207 | the values of a dictionary in enumeration order |
| `Dict.Lookup` | SpectrumLoader.cs:140 | `TryGetValue` finds a value exactly when the key is present, and it is a value stored under that key |
| `Dict.LookupAt` | SpectrumLoader.cs:154 | with unique keys, the entry at a position is what its key looks up |
| `Dict.Add` | SpectrumLoader.cs:117 | `Add` of a new key keeps the keys unique and appends the key and the value |
| `Dict.HasKeyAdd` | SpectrumLoader.cs:117 | after `Add`, the keys present are the old ones plus the new one |
| `Dict.LookupAdd` | SpectrumLoader.cs:131 | after `Add`, the new key finds the new value and every other key its old value |
| `Dict.SameEntriesSameKeys` | SpectrumLoader.cs:184 | a permutation of the entries has the same keys |
| `StableSort.Insert` | SpectrumLoader.cs:184 | inserting adds exactly that element |
| `StableSort.SortBy` | SpectrumLoader.cs:184 | `OrderBy` is a permutation |
| `StableSort.InsertOrdered` | SpectrumLoader.cs:184 | inserting after the elements of equal key keeps the key order, with the earlier order among equal keys |
| `StableSort.SortByOrdered` | SpectrumLoader.cs:184 | `OrderBy` sorts by the key and is stable: on equal keys the prior order is kept |
| `Loader.UnregisteredHasNoDependencies` | SpectrumLoader.cs:117-131 | an id that is not registered has no dependency list |
| `Loader.RegisterType` | SpectrumLoader.cs:99-132 | registering one type keeps the registry valid: unique keys, and every dependency list non-empty and owned by a registered mod |
| `Loader.RegisterAdds` | SpectrumLoader.cs:117-131 | a type with one `[ModInfo]` and a new id adds its entry, and its dependency list only when it declares one |
| `Loader.SkipsWithoutOneModInfo` | SpectrumLoader.cs:101-102 | a type with no `[ModInfo]`, or with more than one, changes nothing |
| `Loader.NoModInfoRegistersNothing` | SpectrumLoader.cs:94-134 | types none of which carries `[ModInfo]` leave the registry unchanged and do not exit |
| `Loader.SkippedAssemblyRegistersNothing` | SpectrumLoader.cs:58-61 | skipping an assembly that `IsModAssembly` rejects loses nothing: registering it would change nothing |
| `Loader.DuplicateKeepsFirst` | SpectrumLoader.cs:109-116 | a duplicate id leaves the registry unchanged, and the outcome is an exit exactly in crash mode |
| `Loader.RegisterTypeValid` | SpectrumLoader.cs:117-131 | adding a new id with a non-empty dependency list, or none, keeps the registry valid |
| `Loader.RegisterAll` | SpectrumLoader.cs:94-134 | registering the types of one assembly keeps the registry valid |
| `Loader.RegisterKeepsEntries` | SpectrumLoader.cs:109-117 | registration never changes or removes an entry: the old `_mods` is a prefix of the new one |
| `Loader.RegisterNew` | SpectrumLoader.cs:117 | a new id is appended to the keys, and is the only key added |
| `Loader.FreshAfterRegister` | SpectrumLoader.cs:109-117 | registering the first of a list of new, distinct ids leaves the others new and distinct |
| `Loader.RegisterFresh` | SpectrumLoader.cs:99-133 | with new and distinct ids, nothing exits and every id with one `[ModInfo]` is appended in order |
| `Loader.LenientRegistrationContinues` | SpectrumLoader.cs:112-115 | in lenient mode registration never exits |
| `Loader.DependencyStatus` | SpectrumLoader.cs:144-175 | a dependency is missing exactly when its mod is not registered, an escaping error is always `OverflowException`, and a satisfied dependency has a parsed range that contains the parsed version |
| `Loader.RegisterAssemblies` | SpectrumLoader.cs:56-62 | registering every mod assembly keeps the registry valid |
| `Loader.StatusMeaning` | SpectrumLoader.cs:144-175 | each dependency status holds exactly when its condition does, in the order the checks are made: missing mod, range that does not parse, version that does not match, escaping overflow, version outside the range, satisfied |
| `Loader.Statuses` | SpectrumLoader.cs:142 | one status per declared dependency |
| `Loader.StatusesAt` | SpectrumLoader.cs:142-176 | the k-th status is that of the k-th dependency |
| `Loader.Verdict` | SpectrumLoader.cs:136-180 | in lenient mode the check never exits; an escaping exception comes from some dependency's status, and an exit from some failing dependency |
| `Loader.VerdictPasses` | SpectrumLoader.cs:144-175 | a satisfied dependency, or in lenient mode any failure other than an exception, passes the check on |
| `Loader.VerdictStops` | SpectrumLoader.cs:147-174 | any other failure ends the check: an overflow escapes, anything else exits |
| `Loader.VerdictAppend` | SpectrumLoader.cs:138-179 | checking two lists in a row is checking the first and, if it completes, the second |
| `Loader.RequirementsStep` | SpectrumLoader.cs:138-142 | the dependencies are checked mod by mod in `_mods` order; a mod without a list declares none |
| `Loader.VerdictCompleted` | SpectrumLoader.cs:136-180 | the check completes exactly when every dependency is satisfied or, in lenient mode, fails without an exception |
| `Loader.LenientNeverExits` | SpectrumLoader.cs:147-174 | in lenient mode the check never exits |
| `Loader.CrashStopsAtFirstProblem` | SpectrumLoader.cs:147-174 | in crash mode the first unsatisfied dependency decides: exit, or the escaping overflow |
| `Loader.KeyIndex` | SpectrumLoader.cs:184 | the position of a key in `_mods` |
| `Loader.KeyIndexAt` | SpectrumLoader.cs:184 | with unique keys, the position of the key at i is i |
| `Loader.CountRegistered` | SpectrumLoader.cs:184 | the number of dependencies whose mod is registered is at most their number |
| `Loader.CountRegisteredExtremes` | SpectrumLoader.cs:184 | the count is zero exactly when none of the dependencies is registered, and full exactly when all are |
| `Loader.SortedByDependencies` | SpectrumLoader.cs:184 | the two `OrderBy` passes give a permutation of `_mods` |
| `Loader.SortOrder` | SpectrumLoader.cs:184 | the sort is a permutation of `_mods`, ordered by registered dependency count, then declared count, then prior position |
| `Loader.SortedPair` | SpectrumLoader.cs:184 | any two positions of the sorted `_mods` are in load order, and the earlier has no more registered dependencies |
| `Loader.UnconstrainedFirst` | SpectrumLoader.cs:184 | every mod with no registered dependency loads before every mod with one |
| `Loader.TiesKeepOrder` | SpectrumLoader.cs:184 | mods that tie on both counts keep their order |
| `Loader.ChainCounts` | SpectrumLoader.cs:184 | in the chain A requires B requires C, A and B each have one declared dependency, and it is registered |
| `Loader.ChainLoadsDependentFirst` | SpectrumLoader.cs:184 | in that chain A still loads before B, the mod it requires: the sort is not topological |
| `Loader.LoadEntry` | SpectrumLoader.cs:191-204 | loading one entry keeps the keys unique and every loaded mod's info recorded, whatever the instantiation does |
| `Loader.LoadEntryValid` | SpectrumLoader.cs:198-199 | recording a new instance's info keeps every loaded mod's info recorded |
| `Loader.LoadEntries` | SpectrumLoader.cs:189-205 | loading the entries in order keeps the load state valid |
| `Loader.LoadEntriesStep` | SpectrumLoader.cs:189-205 | loading one more entry is loading the entries before it and then that one |
| `Loader.CreatedKeys` | SpectrumLoader.cs:199 | every loaded key is a key of `_mods` |
| `Loader.CreatedInstances` | SpectrumLoader.cs:197-198 | every recorded instance was created from some entry |
| `Loader.LoadFromEmpty` | SpectrumLoader.cs:189-205 | from nothing, with unique keys and distinct instances, exactly the mods that instantiate are loaded, in `_mods` order, each with its info; failures are skipped whatever the crash flag |
| `Loader.SpectrumLoader.constructor` | SpectrumLoader.cs:40-43 | a new loader has empty dictionaries and the given crash flag |
| `Loader.SpectrumLoader.GetModInfo` | SpectrumLoader.cs:67 | `GetModInfo` finds an info exactly for the instances recorded in `_modInfos` |
| `Loader.SpectrumLoader.PreloadAssembly` | SpectrumLoader.cs:94-134 | the loop over the types leaves `_mods`, `_dependencies` and the exit flag as `RegisterAll` says, keeps the registry valid, and leaves the loaded mods alone |
| `Loader.SpectrumLoader.CheckDependencies` | SpectrumLoader.cs:136-180 | the nested loop changes nothing and returns the verdict on every declared dependency in `_mods` order |
| `Loader.SpectrumLoader.CheckDeclared` | SpectrumLoader.cs:142-177 | the inner loop returns the verdict on one mod's dependency list |
| `Loader.SpectrumLoader.SortByDependencies` | SpectrumLoader.cs:182-185 | `_mods` becomes its sorted form, the rest is unchanged, and the registry stays valid |
| `Loader.SpectrumLoader.LoadModsInternal` | SpectrumLoader.cs:187-216 | the loaded mods and infos become `LoadEntries` of `_mods`, and the `Loaded` hooks are called on the loaded mods in order |
| `Loader.SpectrumLoader.LoadEntryInPlace` | SpectrumLoader.cs:191-204 | one iteration updates `_modInfos` and `_loadedMods` as `LoadEntry` says |
| `Loader.SpectrumLoader.NotifyLoaded` | SpectrumLoader.cs:206-215 | every loaded mod has an info for the report, and the hooks are called on the loaded mods in order |
| `Loader.SpectrumLoader.PreloadMods` | SpectrumLoader.cs:49-65 | registration, then the check, then the sort: an exit or a failed check skips what follows |
| `Loader.SortKeepsValid` | SpectrumLoader.cs:184 | the sorted `_mods` keeps the registry valid |
| `Loader.PermutationKeepsUniqueKeys` | SpectrumLoader.cs:184 | `ToDictionary` on the permuted entries cannot meet a duplicate key |
| `Loader.UniqueKeysOccurOnce` | SpectrumLoader.cs:184 | with unique keys each entry occurs once |

## Left out

- Unicode `\d`: `\d` in .NET also matches non-ASCII decimal digits. The model reads only `0`-`9`, and `int.Parse` of such digits is not modelled.
- Culture: `int.TryParse` and `string.StartsWith(string)` use the current culture. The model uses the invariant culture's sign and white space, and ordinal prefix comparison.
- Strings: a Dafny `char` is a Unicode scalar value, where a C# `char` is a UTF-16 code unit. A character outside the Basic Multilingual Plane is one `char` in the model and a surrogate pair of two in C#. So lengths differ for such text, dropping the brackets of a range (`input[1..^1]`) removes one code unit in C# but one whole character in the model, and ordinal order differs above U+D7FF: C# compares code units, so a surrogate (U+D800-U+DFFF) sorts below U+E000-U+FFFF, where the model compares scalar values. There is no normalisation.
- `Versions.CompareTo`: returns -1, 0 or 1, where the source returns `string.Compare`'s ordinal difference unreduced. Every caller tests only the sign.
- `Text.OrdinalCompare`: gives the sign of `string.Compare(…, StringComparison.Ordinal)`, not its magnitude, for the same reason.
- `Versions.ToString`: the `??=` also writes the computed text back into `_versionString`. Only the returned text is modelled. The write happens only for `default(Version)`, the one value whose cached text is `null`.
- `GetHashCode` of both structs: `HashCode.Combine` is seeded per process.
- File-system access in `PreloadMods`: `DirectoryNotFoundException` and the `*.dll` search. The assemblies arrive as a sequence.
- Mono.Cecil reading in `IsModAssembly` and `PreloadAssembly`. Its failure handling is not modelled; `IsModAssembly` is a predicate on the records.
- Attribute arguments that are `null`.
- Reflection in `LoadModsInternal` (`AppDomain`, `Assembly.LoadFrom`, `Type.GetType`, `Activator.CreateInstance`): it is the `create` parameter.
- Fresh instances: `Activator.CreateInstance` makes a new instance on every call, but `create` is a function. A second `LoadModsInternal` with the same `create` gets the same instances back; they are already keys of `_modInfos`, so `LoadEntry` records nothing. In the source, `_modInfos.Add` would succeed and `_loadedMods.Add` would throw (SpectrumLoader.cs:197-199), leaving `_modInfos` with an extra entry. A repeated load should be given a `create` that returns fresh instances.
- Exceptions thrown by a mod's `Loaded` hook: the hooks are the returned sequence of mods to notify, in order.
- `Console.WriteLine` output. It only reports.
- The `ModLoaded` event: it is declared but never raised.
- `SpectrumLoader.CreateDefault`, `LoadMods` (a one-line forward to `LoadModsInternal`) and the base-class `GetModInfo` that returns `null`.
- Attributes.cs and SimpleMod.cs are not part of this model beyond the `ModInfo` and `ModDependency` fields.
