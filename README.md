# go-version in Dafny

A model of the core of the `go-version` library. The library parses and
compares software version strings and checks them against constraint
expressions. It has two flavours:

- `semver` is strict Semantic Versioning 2.0.0: exactly
  `major.minor.patch`, plus an optional pre-release and build.
- `version` is relaxed: any number of numeric segments, an optional
  pre-release and build, and a richer constraint language with ranges
  and the `~>` operator.

Both flavours rest on two shared layers:

- `part`: typed version segments and lists of them, compared with padding.
- `prerelease`: the pre-release comparator.

A constraint text is a disjunction: its pieces between `||` are called
OR-groups below. Each OR-group is a conjunction of clauses, and each
clause is an operator applied to an operand version.

The project is laid out by module:

| file | module | source |
|---|---|---|
| `wrappers.dfy` | `Wrappers` | `Option`/`Result` and the 64-bit integer ranges |
| `text.dfy` | `Text` | `strings.Split`/`Join`/`Replace`/`Compare`, character classes, the `-pre`/`+build` cut |
| `decimal.dfy` | `Decimal` | `strconv.ParseUint`/`ParseInt`, `big.Int.SetString`, `%d` rendering |
| `results.dfy` | `Results` | "collect every result, or fail on the first error" |
| `part.dfy` | `Part` | `pkg/part/{part,int,string,bigint}.go` |
| `parts.dfy` | `PartList` | `pkg/part/list.go` |
| `prerelease.dfy` | `PreRelease` | `pkg/prerelease/prerelease.go` |
| `semver_version.dfy` | `SemVer` | `pkg/semver/version.go` |
| `semver_constraint.dfy` | `SemVerConstraint` | `pkg/semver/constraint.go` |
| `relaxed_version.dfy` | `Relaxed` | `pkg/version/version.go` |
| `relaxed_constraint.dfy` | `RelaxedConstraint` | `pkg/version/constraint.go` |

How the source's forms map to Dafny:

- Pure comparison and parsing code becomes functions and lemmas.
- The source's loops become methods proved against those functions:
  `NewParts`, `Normalize`, `Parts.Compare`, the version `String`,
  relaxed `NewVersion`, both `NewConstraints`, `andCheck`, `Check`,
  `rewriteRange` and `Constraints.String`.
- The `Zip` closure, which advances a captured index, is a class with
  that index as a mutable field.
- The regular expressions become recognisers written out by hand. Each
  does what the expression does on the texts it is given:
  - the anchored expressions are predicates on the whole text;
  - the unanchored `FindAllString` scan is a leftmost, greedy search.

## Model

| member | source | states |
|---|---|---|
| Decimal.ParseUint | pkg/part/int.go:43-49 | succeeds exactly on a non-empty digit string whose value fits in 64 bits, returns that value, and fails with a range error on a too-large digit string |
| Decimal.ParseInt | pkg/part/int.go:7-13 | succeeds exactly on an optional sign followed by digits whose value lies in the int64 range, and returns the signed value |
| Decimal.ParseBig | pkg/part/bigint.go:12-19 | succeeds exactly on an optional sign followed by digits, of any size, and returns the signed value |
| Decimal.Dec | pkg/version/version.go:124-126 | the `%d` rendering is canonical decimal text whose value is the number |
| Decimal.DecValue | pkg/semver/version.go:75-87 | rendering the value of canonical decimal text gives the text back |
| Part.NewUint64 | pkg/part/int.go:43-49 | a Uint64 segment of the text's value exactly when the text is decimal digits that fit in 64 bits; otherwise the strconv error |
| Part.NewInt64 | pkg/part/int.go:7-13 | an Int64 segment of the signed value exactly when the text is a signed decimal in the int64 range |
| Part.NewBigInt | pkg/part/bigint.go:12-19 | a BigInt of the signed value exactly when the text is a signed decimal; otherwise the error that names the text |
| Part.NewString | pkg/part/string.go:9-11 | a String segment holding the text, which is null exactly when the text is empty |
| Part.NewPart | pkg/part/part.go:8-15 | a Uint64 segment of the value when the text is a 64-bit decimal, and otherwise a String segment of the text |
| Part.Int64Cast | pkg/part/bigint.go:32-35 | Go's `int64(u)`: congruent to u modulo 2^64, equal to u up to MaxInt64 and negative above it |
| Part.Compare | pkg/part/int.go:15-35 | over every variant the source handles: -1, 0 or 1; 1 against nil; 0 against an equal segment |
| Part.IsNull | pkg/part/int.go:37-39 | null exactly for the numeric zeros and the empty string |
| Part.BigIntIsAny | pkg/part/bigint.go:63-65 | a BigInt is never the wildcard |
| Part.BigIntIsEmpty | pkg/part/bigint.go:67-69 | a BigInt is never empty |
| Part.NumbersBeforeStrings | pkg/part/string.go:21-24 | Uint64 and Int64 segments sort below every String segment, seen from either side |
| Part.NumericOrder | pkg/part/int.go:23-27 | Uint64 against Uint64 and Int64 against Int64 compare by numeric value |
| Part.StringOrder | pkg/part/string.go:13-29 | String against String is `strings.Compare`, and String against nil is 1 |
| Part.StringBigIntAsymmetry | pkg/part/string.go:28 | String against BigInt gives 0, but BigInt against String gives -1: the comparison is not antisymmetric across these variants |
| Part.BigIntOrder | pkg/part/bigint.go:26-55 | BigInt against nil, BigInt, String, PreString, Any and Empty, with each result the source gives |
| Part.BigIntUint64InRange | pkg/part/bigint.go:32-35 | BigInt against a Uint64 up to MaxInt64 is the numeric order |
| Part.BigIntUint64Wraps | pkg/part/bigint.go:32-35 | BigInt 0 against Uint64 2^63 compares as greater, although 0 is smaller |
| Part.CompareBigIntUint64 | pkg/part/bigint.go:32-35 | the intended comparison: the exact numeric order, and it agrees with the source wherever the cast does not wrap |
| Part.PlainCompareZero | pkg/part/part.go:8-15 | on segments NewPart produces, comparing to 0 means being equal |
| Part.PlainCompareAntisymmetric | pkg/part/string.go:13-29 | on segments NewPart produces, swapping the operands negates the result |
| Part.PlainCompareTransitive | pkg/part/int.go:51-71 | on segments NewPart produces, "at most" is transitive |
| PartList.PartsOf | pkg/part/list.go:10-16 | one NewPart per dot-separated field, in order |
| PartList.PartsOfLength | pkg/part/list.go:10-16 | there are as many segments as dots plus one, so never none |
| PartList.NewParts | pkg/part/list.go:10-16 | the loop builds exactly PartsOf of the text |
| PartList.Normalized | pkg/part/list.go:18-29 | a prefix of the input that does not end in a null segment, and everything cut from it is null |
| PartList.NormalizedIdempotent | pkg/part/list.go:18-29 | normalizing twice is normalizing once |
| PartList.NormalizedAppendNulls | pkg/part/list.go:18-29 | appending null segments leaves the normal form unchanged |
| PartList.Normalize | pkg/part/list.go:18-29 | the backwards loop returns exactly the normal form |
| PartList.Elem | pkg/part/list.go:68-84 | the segment at an index, or the padding past the end |
| PartList.Zipper.constructor | pkg/part/list.go:68-70 | a fresh iterator over the two lists, positioned at the start |
| PartList.Zipper.Next | pkg/part/list.go:71-83 | while an index remains in the longer list, yields both lists' elements there (nil past an end) and advances; then yields nil and stays put |
| PartList.ZipCount | pkg/part/list.go:68-84 | a drained Zip yields exactly the longer list's length of tuples |
| PartList.Step | pkg/part/list.go:44-58 | one loop step: -1 when the left side is nil, 1 when only the right side is nil, otherwise the segment comparison |
| PartList.CompareParts | pkg/part/list.go:31-61 | -1, 0 or 1; 1 against nil; 0 against an identical list |
| PartList.Compare | pkg/part/list.go:31-61 | the Zip-driven loop returns exactly CompareParts |
| PartList.PlainSafe | pkg/part/list.go:44-58 | lists of NewPart segments, padded with one, never reach the panicking cases |
| PartList.ComparePartsAntisymmetric | pkg/part/list.go:31-61 | swapping two plain lists negates the result |
| PartList.ComparePartsTransitive | pkg/part/list.go:31-61 | "at most" is transitive on plain lists |
| PartList.ComparePartsZeroNilPad | pkg/part/list.go:31-61 | with nil padding, two plain lists compare 0 exactly when they are identical |
| PartList.ProperPrefixSmaller | pkg/part/list.go:50-53 | with nil padding, a proper prefix is smaller than the longer list |
| PartList.ZeroPaddingEqual | pkg/part/list.go:31-61 | with Uint64(0) padding, appending zero segments leaves the order unchanged, so "1.2" equals "1.2.0" |
| PartList.FirstDifference | pkg/part/list.go:40-59 | after a common prefix, the first differing pair of segments decides |
| PartList.PaddedTailGreater | pkg/part/list.go:31-61 | with zero padding, a list followed by zeros and then a non-zero number is greater than the list |
| PartList.NormalizedZeroOrder | pkg/version/version.go:80-82 | with zero padding, normalizing numeric lists first does not change their order |
| PartList.LexOverZeros | pkg/part/list.go:40-59 | with zero padding, numeric segments never compare below zeros |
| PreRelease.ComparePreRelease | pkg/prerelease/prerelease.go:18-23 | -1, 0 or 1 |
| PreRelease.ComparePreReleaseAntisymmetric | pkg/prerelease/prerelease.go:18-23 | swapping the operands negates the result |
| PreRelease.ComparePreReleaseTransitive | pkg/prerelease/prerelease.go:18-23 | "at most" is transitive |
| PreRelease.Compare | pkg/prerelease/prerelease.go:5-16 | equal texts tie; otherwise the empty pre-release (a release) is greater than any non-empty one |
| PreRelease.CompareAntisymmetric | pkg/prerelease/prerelease.go:5-16 | swapping the operands negates the result |
| PreRelease.CompareTransitive | pkg/prerelease/prerelease.go:5-16 | "at most" is transitive, so the comparison is a total preorder |
| PreRelease.CompareZero | pkg/prerelease/prerelease.go:5-23 | two pre-releases tie exactly when they are equal, or both are non-empty and parse to the same segments |
| PreRelease.PartsOfJoin | pkg/prerelease/prerelease.go:18-23 | splitting dot-joined identifiers gives back one segment per identifier |
| PreRelease.FirstDifferingIdentifier | pkg/prerelease/prerelease.go:18-23 | after common identifiers, the first differing pair of identifiers decides |
| PreRelease.ProperPrefixIdentifiers | pkg/prerelease/prerelease_test.go:29-44 | a pre-release whose identifiers are a proper prefix of another's is smaller |
| PreRelease.SameSegmentsTie | pkg/prerelease/prerelease.go:18-23 | identifier lists that parse to the same segments tie |
| PreRelease.PrecedenceAlpha | pkg/prerelease/prerelease_test.go:29-44 | alpha < alpha.1 |
| PreRelease.PrecedenceAlphaOne | pkg/prerelease/prerelease_test.go:29-44 | alpha.1 < alpha.beta |
| PreRelease.PrecedenceAlphaBeta | pkg/prerelease/prerelease_test.go:29-44 | alpha.beta < beta |
| PreRelease.PrecedenceBeta | pkg/prerelease/prerelease_test.go:29-44 | beta < beta.2 |
| PreRelease.PrecedenceBetaTwo | pkg/prerelease/prerelease_test.go:29-44 | beta.2 < beta.11 |
| PreRelease.PrecedenceBetaEleven | pkg/prerelease/prerelease_test.go:29-44 | beta.11 < rc.1 |
| PreRelease.NumericIdentifiersByValue | pkg/prerelease/prerelease_test.go:70-76 | alpha.10 > alpha.2: numbers compare by value |
| PreRelease.HyphenIdentifierIsText | pkg/prerelease/prerelease.go:18-23 | "-2" is not an unsigned number, so it is text, and beta.4 < beta.-2 |
| PreRelease.LeadingZeroIdentifierTies | pkg/prerelease/prerelease.go:18-23 | alpha.01 ties with alpha.1, because the numeric parse drops leading zeros |
| SemVer.NewVersion | pkg/semver/version.go:43-72 | fails as invalid outside the grammar; succeeds exactly when the text matches and all three numbers fit in 64 bits; keeps the text as the original, with no wildcard flag |
| SemVer.Original | pkg/semver/version.go:90-92 | the text the version was parsed from |
| SemVer.ParseThenString | pkg/semver/version.go:75-87 | rendering a parsed version gives back exactly the text it was parsed from |
| SemVer.StringThenParse | pkg/semver/version.go:43-87 | parsing the rendering of well-formed fields gives those fields back, with the wildcard flags cleared |
| SemVer.RenderCore | pkg/semver/version.go:75-87 | three canonical fields joined by dots render back to themselves |
| SemVer.NoCore | pkg/semver/version.go:24-26 | a text without '-' or '+' is invalid unless it is three canonical numbers |
| SemVer.BadPreRelease | pkg/semver/version.go:24-26 | a pre-release outside the identifier grammar makes the text invalid |
| SemVer.PreIdsTwo | pkg/semver/version.go:25 | two identifiers form a valid pre-release exactly when each is valid |
| SemVer.ReleaseExample | pkg/semver/version_test.go:18 | "1.2.3" parses to 1.2.3 with no pre-release, no build and no flag |
| SemVer.BuildExample | pkg/semver/version_test.go:20 | "1.2.3+test.01" parses, with the build "test.01": build identifiers may have leading zeros |
| SemVer.LeadingZeroExample | pkg/semver/version_test.go:19 | "1.2.3-alpha.01" is invalid: a numeric pre-release identifier may not have a leading zero |
| SemVer.TwoFieldsExample | pkg/semver/version_test.go:22-43 | "1.0" and "1.7rc2" are invalid: they have two fields |
| SemVer.LeadingVExample | pkg/semver/version_test.go:45 | "v1.2.3" is invalid |
| SemVer.Compare | pkg/semver/version.go:128-143 | the first differing field among major, minor and patch decides; otherwise the pre-release comparison decides |
| SemVer.CompareAntisymmetric | pkg/semver/version.go:128-143 | swapping the operands negates the result |
| SemVer.CompareTransitive | pkg/semver/version.go:128-143 | "at most" is transitive |
| SemVer.CompareIgnoresBuild | pkg/semver/version.go:128-143 | build metadata, the original text and the wildcard flags never affect the comparison |
| SemVer.GreaterThan | pkg/semver/version.go:105-107 | holds exactly when the other version compares below this one |
| SemVer.LessThan | pkg/semver/version.go:95-97 | the converse of GreaterThan |
| SemVer.GreaterThanOrEqual | pkg/semver/version.go:110-112 | the complement of LessThan |
| SemVer.LessThanOrEqual | pkg/semver/version.go:100-102 | the complement of GreaterThan |
| SemVer.Equal | pkg/semver/version.go:117-119 | neither less nor greater, which means the same major, minor and patch, and pre-releases that compare equal |
| SemVer.Inc | pkg/semver/version.go:149-199 | uint64 `+= 1`: wraps at 2^64, and is x + 1 below MaxUint64 |
| SemVer.TildeBump | pkg/semver/version.go:149-167 | a wildcard major or minor raises the major; a wildcard patch raises the minor; otherwise the minor goes up and the patch becomes 0. Pre-release and build are dropped; the flags are kept |
| SemVer.CaretBump | pkg/semver/version.go:173-199 | a non-zero major goes up with zeros after it; a wildcard major gives MaxUint64. Under a zero major the first non-zero or wildcard field goes up. A wildcard-free 0.0.0 stays 0.0.0 |
| SemVer.TildeBumpGreater | pkg/semver/version.go:149-167 | without overflow, the tilde bound is strictly above the version |
| SemVer.CaretBumpGreater | pkg/semver/version.go:173-199 | without overflow, the caret bound is strictly above the version, except for a wildcard-free 0.0.0 and for a wildcard major already at MaxUint64 |
| SemVer.CaretBumpZero | pkg/semver/version.go:173-199 | a wildcard-free 0.0.0 release is its own caret bound |
| SemVer.TildeRange | pkg/semver/constraint.go:239-244 | for a release, lying in [c, tilde bound) means being at least c and sharing c's major.minor |
| SemVer.CaretRangeMajor | pkg/semver/constraint.go:255-260 | with a non-zero major, lying in [c, caret bound) means being at least c and sharing c's major |
| SemVer.CaretRangeMinor | pkg/semver/constraint.go:255-260 | with major 0 and a non-zero minor, lying in the range means being at least c and sharing 0.minor |
| SemVer.CaretRangePatch | pkg/semver/constraint.go:255-260 | with 0.0.patch (patch non-zero), the range holds exactly the one release 0.0.patch |
| SemVer.CaretRangeZeroEmpty | pkg/semver/constraint_test.go:610 | nothing lies in the caret range of a wildcard-free 0.0.0 release |
| SemVerConstraint.OpOf | pkg/semver/constraint.go:16-28 | the operator table holds exactly the eleven keys: "=" and "" select Eq, ">="/"=>" select Ge, "<="/"=<" select Le |
| SemVerConstraint.MatchOperand | pkg/semver/constraint.go:11-13 | a matched operand has non-empty wildcard-class number fields, and its pre-release capture is empty or starts with '-' |
| SemVerConstraint.MatchClause | pkg/semver/constraint.go:34-45 | a matched clause's operator is a key of the table |
| SemVerConstraint.NewConstraint | pkg/semver/constraint.go:87-127 | "" is "= any"; a clause outside the grammar is improper; on success the operator is the one the clause names |
| SemVerConstraint.OperandMajorX | pkg/semver/constraint.go:102-105 | an x or missing major gives the operand 0.0.0 with majorX set, no pre-release, and the clause's operator |
| SemVerConstraint.OperandMinorX | pkg/semver/constraint.go:106-108 | an x or missing minor gives major.0.0 with minorX set and the clause's pre-release without its '-'; it succeeds exactly when the major is a canonical 64-bit number and the pre-release is valid |
| SemVerConstraint.OperandPatchX | pkg/semver/constraint.go:109-111 | an x or missing patch gives major.minor.0 with patchX set and the clause's pre-release; it succeeds exactly when major and minor are canonical 64-bit numbers and the pre-release is valid |
| SemVerConstraint.OperandFull | pkg/semver/constraint.go:98-125 | a full operand is NewVersion of the operand text, with no flag; its failure is reported with that text |
| SemVerConstraint.ParseGroupShape | pkg/semver/constraint.go:70-76 | a group parses exactly when each of its comma-separated clauses does, into one constraint per clause |
| SemVerConstraint.ParseConstraintsShape | pkg/semver/constraint.go:59-85 | a text parses exactly when every clause of every OR-group does; it keeps the options and has one group per OR-piece |
| SemVerConstraint.ParseConstraintsGroups | pkg/semver/constraint.go:68-78 | group i holds the constraints parsed from the clauses of piece i |
| SemVerConstraint.ImproperClauseFails | pkg/semver/constraint.go:70-74 | any one clause that fails makes the whole text fail |
| SemVerConstraint.GroupFailureDecides | pkg/semver/constraint.go:68-78 | the first failing group's error is the error of the whole text |
| SemVerConstraint.NewConstraints | pkg/semver/constraint.go:59-85 | the nested loops return exactly ParseConstraints |
| SemVerConstraint.NewGroup | pkg/semver/constraint.go:70-76 | the inner loop returns exactly ParseGroup |
| SemVerConstraint.PreReleaseCheck | pkg/semver/constraint.go:262-269 | a pre-release candidate against a release operand is refused unless pre-releases are included; otherwise the operator decides |
| SemVerConstraint.AndCheck | pkg/semver/constraint.go:144-151 | true exactly when every clause of the group holds |
| SemVerConstraint.Check | pkg/semver/constraint.go:134-142 | true exactly when some group has every clause holding |
| SemVerConstraint.EmptyClauseMatchesAll | pkg/semver/constraint.go:88-93 | the empty clause accepts exactly the versions the pre-release gate lets through |
| SemVerConstraint.AnyOperand | pkg/semver/constraint.go:166-260 | with a "*" operand, "=", "~" and "^" accept, "!=" refuses; ">" means major >= 1; "<=" means major 0; "<" never holds; ">=" always does |
| SemVerConstraint.WildcardEquality | pkg/semver/constraint.go:166-193 | without zero padding, "=1.2" accepts exactly the 1.2.x releases and "!=1.2" exactly the others |
| SemVerConstraint.WildcardAbove | pkg/semver/constraint.go:195-231 | without zero padding, ">1.2" means above every 1.2.x, and "<=1.2" its complement |
| SemVerConstraint.WildcardBelow | pkg/semver/constraint.go:208-222 | without zero padding, "<1.2" means below every 1.2.x, and ">=1.2" its complement |
| SemVerConstraint.ZeroPaddingIsPlain | pkg/semver/constraint.go:166-231 | with zero padding, a partial operand acts as the version with zeros filled in, for all six plain operators |
| SemVerConstraint.TildeOperator | pkg/semver/constraint.go:239-244 | "~" on a full operand: at least c, with the same major.minor |
| SemVerConstraint.CaretOperatorMajor | pkg/semver/constraint.go:255-260 | "^" on a full operand with a non-zero major: at least c, with the same major |
| SemVerConstraint.CaretZeroMatchesNothing | pkg/semver/constraint_test.go:610 | "^0.0.0" holds for no version at all |
| SemVerConstraint.EqualNotEqualOverlap | pkg/semver/constraint.go:166-193 | once pre-releases are included, 1.2.5-alpha satisfies both "=1.2" and "!=1.2" |
| SemVerConstraint.OperandStart | pkg/semver/constraint.go:11-13 | an operand that starts with neither 'v' nor a wildcard-field character does not match |
| SemVerConstraint.LeadingCharImproper | pkg/semver/constraint.go:94-97 | a clause whose first non-space character starts neither an operator nor an operand is improper |
| SemVerConstraint.ImproperExample | pkg/semver/constraint_test.go:134 | "BAR >= 1.2.3" is improper |
| Relaxed.PreReleaseOf | pkg/version/version.go:22-25 | the pre-release capture is empty or dot-separated identifiers |
| Relaxed.MatchVersion | pkg/version/version.go:22-25 | a match captures dot-separated digit fields and, when present, dot-separated identifiers for the pre-release and the build |
| Relaxed.SegmentsOf | pkg/version/version.go:48-56 | digit fields all become Uint64 segments of their values exactly when every value fits in 64 bits |
| Relaxed.ParseShape | pkg/version/version.go:42-69 | parsing succeeds exactly when the grammar matches and every number fits; the result holds those numbers, the captures and the original text |
| Relaxed.ParsedWellFormed | pkg/version/version.go:42-69 | every parsed version has at least one numeric segment and well-formed pre-release and build |
| Relaxed.NoNumbers | pkg/version/version.go:22-25 | a text that starts with neither 'v' nor a digit or dot has no number part, and is malformed |
| Relaxed.DanglingDot | pkg/version/version.go:22-25 | a number part that ends in a dot is malformed, whatever follows it |
| Relaxed.NumbersThenPreRelease | pkg/version/version.go:22-25 | numbers followed by a pre-release alternative without '+' match with those numbers, that pre-release and no build |
| Relaxed.ParsePreRelease | pkg/version/version.go:42-69 | such a text parses, keeping the pre-release, when every number fits in 64 bits |
| Relaxed.MalformedExamples | pkg/version/version_test.go:16-25 | "", "foo" and "\n1.2" are malformed |
| Relaxed.DanglingDotExample | pkg/version/version_test.go:20 | "1.2.beta" is malformed: the numbers "1.2." end in a dot |
| Relaxed.LetterPreReleaseExample | pkg/version/version_test.go:37 | "1.7rc2" parses, with numbers "1.7" and pre-release "rc2" |
| Relaxed.DashPreReleaseExample | pkg/version/version_test.go:39 | "1.0-" parses, with numbers "1.0" and the pre-release "-" |
| Relaxed.NewVersion | pkg/version/version.go:42-69 | the segment loop returns exactly Parse |
| Relaxed.Render | pkg/version/version.go:124-126 | `%d` of a Uint64 segment is its canonical decimal; a String segment prints as a `%!d` error text |
| Relaxed.Rendered | pkg/version/version.go:124-126 | each segment's rendering, in order |
| Relaxed.NumbersSnoc | pkg/version/version.go:125-127 | one more segment adds a dot and its rendering |
| Relaxed.StringOf | pkg/version/version.go:122-137 | the loop and the two appends return exactly String |
| Relaxed.NumbersOf | pkg/version/version.go:124-127 | the segment loop returns the renderings joined by dots |
| Relaxed.Original | pkg/version/version.go:141-143 | the text the version was parsed from |
| Relaxed.RenderedNumbers | pkg/version/version.go:122-137 | the rendered numbers split back into one rendering per segment, and begin with a digit |
| Relaxed.MatchRendered | pkg/version/version.go:22-25 | the grammar reads a rendering back into its numbers, pre-release and build |
| Relaxed.StringThenParse | pkg/version/version.go:42-137 | parsing the rendering of a well-formed version gives the same version back |
| Relaxed.StringInjective | pkg/version/version.go:122-137 | two well-formed versions with the same rendering agree in everything but the original text |
| Relaxed.StringStable | pkg/version/version_test.go:61-73 | rendering is canonical: parsing and rendering a rendering changes nothing |
| Relaxed.Order | pkg/version/version.go:80-86 | -1, 0 or 1 |
| Relaxed.Compare | pkg/version/version.go:74-87 | -1, 0 or 1; equal renderings compare 0 |
| Relaxed.NotLessByOrder | pkg/version/version.go:74-87 | the result is never below zero when the segment and pre-release order is not |
| Relaxed.OrderAntisymmetric | pkg/version/version.go:80-86 | swapping the operands negates the order |
| Relaxed.OrderTransitive | pkg/version/version.go:80-86 | "at most" is transitive in the order |
| Relaxed.CompareAntisymmetric | pkg/version/version.go:74-87 | swapping the operands negates the result |
| Relaxed.FastPathAgrees | pkg/version/version.go:76-78 | on parsed versions, the equal-rendering shortcut agrees with the full order |
| Relaxed.CompareTransitive | pkg/version/version.go:74-87 | "at most" is transitive on parsed versions, so the comparison is a total preorder |
| Relaxed.ZerosAndBuildIgnored | pkg/version/version_test.go:16-39 | trailing zero segments, build metadata and the original text never change the result |
| Relaxed.SignificantTail | pkg/version/version.go:80-84 | a non-zero segment after any zeros outranks the shorter version: "1.2.0.0.1" is above "1.2" |
| Relaxed.PreReleaseBelowRelease | pkg/version/version.go:86 | adding a pre-release to a release makes it smaller |
| Relaxed.OrderNumeric | pkg/version/version.go:80-86 | on numeric segments, zero-padded comparison alone decides, then the pre-releases |
| Relaxed.Equal | pkg/version/version.go:90-92 | neither less nor greater |
| Relaxed.GreaterThan | pkg/version/version.go:95-97 | holds exactly when the other version compares below this one |
| Relaxed.GreaterThanOrEqual | pkg/version/version.go:100-102 | the complement of LessThan |
| Relaxed.LessThan | pkg/version/version.go:105-107 | the converse of GreaterThan |
| Relaxed.LessThanOrEqual | pkg/version/version.go:110-112 | the complement of GreaterThan |
| RelaxedConstraint.OpOf | pkg/version/constraint.go:17-31 | every operator is at most two operator characters |
| RelaxedConstraint.FieldsEnd | pkg/version/constraint.go:12-14 | the greedy scan of dot-separated fields advances and stays inside the text |
| RelaxedConstraint.OperandAt | pkg/version/constraint.go:12-14 | a greedy operand match is non-empty and stays inside the text |
| RelaxedConstraint.OperandIsCv | pkg/version/constraint.go:12-14 | what the greedy scan takes as an operand is a complete operand text |
| RelaxedConstraint.CvOperand | pkg/version/constraint.go:12-14 | an operand text that nothing can continue is matched whole, capturing its numbers and pre-release |
| RelaxedConstraint.RenderedIsCv | pkg/version/constraint.go:12-14 | number fields with an optional pre-release and build form an operand, with or without a leading 'v' |
| RelaxedConstraint.ClauseAt | pkg/version/constraint.go:45-48 | a clause match starts where asked and selects an operator of the table |
| RelaxedConstraint.RangeAt | pkg/version/constraint.go:50-52 | a range match starts where asked and needs a '-' in the text |
| RelaxedConstraint.FirstFrom | pkg/version/constraint.go:83 | a reported match lies at or after the start position |
| RelaxedConstraint.FirstFromLeftmost | pkg/version/constraint.go:83 | a reported match is one, and no match starts before it: the search is leftmost |
| RelaxedConstraint.FirstFromNone | pkg/version/constraint.go:83-86 | when nothing is reported, no match starts anywhere from the position on |
| RelaxedConstraint.FindAllFrom | pkg/version/constraint.go:83 | every match lies at or after the position, and all are of the searched kind |
| RelaxedConstraint.FirstFromAt | pkg/version/constraint.go:83 | the search reports the match at the first position from which one starts |
| RelaxedConstraint.FindAllSkip | pkg/version/constraint.go:83 | positions where no match starts do not change the list of matches |
| RelaxedConstraint.Texts | pkg/version/constraint.go:83 | each matched text is the slice of the input it covers |
| RelaxedConstraint.Ranges | pkg/version/constraint.go:106 | every match is a range match inside the text |
| RelaxedConstraint.RewrittenSnoc | pkg/version/constraint.go:111-114 | one more match replaces one more first occurrence |
| RelaxedConstraint.RewriteRangeOf | pkg/version/constraint.go:105-116 | the method returns exactly RewriteRange |
| RelaxedConstraint.ReplaceEach | pkg/version/constraint.go:110-115 | the loop replaces each match's text, in order, once by its template |
| RelaxedConstraint.NoDashNoRewrite | pkg/version/constraint.go:105-109 | a text without '-' is left as it is |
| RelaxedConstraint.RangeAtWhole | pkg/version/constraint.go:50-52 | "A - B", with operands A and B and blanks around the '-', is one range match over the whole text, capturing A and the numbers of B |
| RelaxedConstraint.RangeRewrite | pkg/version/constraint.go:105-116 | "A - B" is rewritten to ">= A, <= N.*", where N is the number part of B |
| RelaxedConstraint.NewConstraint | pkg/version/constraint.go:118-150 | a non-empty clause parses exactly when a clause match exists; the result keeps the text, its operator selects the table entry, and the operand is printable with no build |
| RelaxedConstraint.NewConstraintOperand | pkg/version/constraint.go:118-150 | for the leftmost clause match, the operand is the version of its numbers and pre-release, with no build, and the constraint keeps the clause's operator and text |
| RelaxedConstraint.NewConstraintOf | pkg/version/constraint.go:133-136 | the segment loop returns exactly NewConstraint |
| RelaxedConstraint.Singles | pkg/version/constraint.go:83-86 | a group yields at least one clause text |
| Text.TrimSpaceSlice | pkg/version/constraint.go:85 | trimming keeps one contiguous slice of the text, and everything cut before and after it is blank |
| RelaxedConstraint.SinglesOfWritten | pkg/version/constraint_test.go:233-235 | well-written clauses joined by "," or by blanks come back one by one, in order |
| RelaxedConstraint.NewConstraints | pkg/version/constraint.go:73-103 | the method returns exactly ParseConstraints |
| RelaxedConstraint.NewGroups | pkg/version/constraint.go:77-97 | the outer loop collects every group, or fails with the first group's error |
| RelaxedConstraint.NewGroup | pkg/version/constraint.go:78-96 | the body of the outer loop returns exactly ParseGroup |
| RelaxedConstraint.IncPart | pkg/version/constraint.go:234-259 | a Uint64 segment goes up by one, wrapping to 0 at MaxUint64; a text segment stays |
| RelaxedConstraint.Zeros | pkg/version/constraint.go:234-259 | n zero segments |
| RelaxedConstraint.BumpAt | pkg/version/constraint.go:234-259 | same length and prefix; segment k goes up; later segments become zero; no pre-release or build |
| RelaxedConstraint.FirstNonZero | pkg/version/constraint.go:248-259 | the first segment that is not zero, or the last segment when all are zero |
| RelaxedConstraint.UpperIndex | pkg/version/constraint.go:234-259 | the raised index lies inside the segments |
| RelaxedConstraint.PessimisticBump | pkg/version/constraint.go:234-236 | raises the next-to-last segment, or a lone segment |
| RelaxedConstraint.TildeBump | pkg/version/constraint.go:238-246 | raises the minor segment, or a lone major |
| RelaxedConstraint.CaretBump | pkg/version/constraint.go:248-259 | raises the first non-zero segment, or the last when all are zero |
| RelaxedConstraint.Upper | pkg/version/constraint.go:234-259 | each interval operator's bound is BumpAt at its raised index |
| RelaxedConstraint.Release | pkg/version/constraint_test.go:150-216 | a printable release operand with the given segments |
| RelaxedConstraint.PessimisticThree | pkg/version/constraint_test.go:155-162 | "~> 1.0.7" ends below 1.1.0 |
| RelaxedConstraint.PessimisticTwo | pkg/version/constraint_test.go:151-153 | "~> 1.0" ends below 2.0 |
| RelaxedConstraint.PessimisticFour | pkg/version/constraint_test.go:163-167 | "~> 1.0.9.5" ends below 1.0.10.0 |
| RelaxedConstraint.TildeThree | pkg/version/constraint.go:243 | "~1.2.3" ends below 1.3.0 |
| RelaxedConstraint.TildeTwo | pkg/version/constraint.go:242 | "~1.2" ends below 1.3 |
| RelaxedConstraint.TildeOne | pkg/version/constraint.go:240 | "~1" ends below 2 |
| RelaxedConstraint.CaretMajor | pkg/version/constraint.go:250 | "^1.2.3" ends below 2.0.0 |
| RelaxedConstraint.CaretMinor | pkg/version/constraint.go:253 | "^0.2.3" ends below 0.3.0 |
| RelaxedConstraint.CaretPatch | pkg/version/constraint.go:255 | "^0.0.3" ends below 0.0.4 |
| RelaxedConstraint.CaretZeros | pkg/version/constraint.go:256-257 | "^0.0" ends below 0.1, and "^0" below 1 |
| RelaxedConstraint.AndCheck | pkg/version/constraint.go:197-204 | true exactly when every clause of the group holds |
| RelaxedConstraint.Check | pkg/version/constraint.go:173-181 | true exactly when some group has every clause holding |
| RelaxedConstraint.JoinAll | pkg/version/constraint.go:191-194 | no elements join to "", and one element joins to itself |
| RelaxedConstraint.Originals | pkg/version/constraint.go:156-158 | each clause's own text, in order |
| RelaxedConstraint.GroupStrings | pkg/version/constraint.go:186-192 | each group's comma-joined clause texts, in order |
| RelaxedConstraint.StringOfConstraints | pkg/version/constraint.go:184-195 | the nested loops return exactly ConstraintsString |
| RelaxedConstraint.GroupStringSplits | pkg/version/constraint.go:184-195 | a group whose clause texts hold no comma splits back into those texts |
| RelaxedConstraint.OperatorsPartition | pkg/version/constraint.go:210-232 | "!=" is the complement of "="; exactly one of "<", "=" and ">" holds; ">=" and "<=" are the unions |
| RelaxedConstraint.IntervalOperators | pkg/version/constraint.go:234-259 | "~>", "~" and "^" accept exactly [operand, bump) |
| RelaxedConstraint.BelowAt | pkg/version/version.go:80-86 | two versions equal before segment k, where the first has the smaller number, compare as less |
| RelaxedConstraint.BumpAbove | pkg/version/constraint.go:234-259 | raising a numeric segment that has room gives a strictly greater version |
| RelaxedConstraint.OwnRange | pkg/version/constraint_test.go:158 | an operand with room to bump satisfies its own "~>", "~" and "^" |
| RelaxedConstraint.PrefixWithinRange | pkg/version/constraint_test.go:150-216 | a version that agrees with the operand up to the raised segment is accepted exactly when it is at least the operand |
| RelaxedConstraint.PrefixBeyondRange | pkg/version/constraint_test.go:150-216 | a release that starts with the bump's segments is refused |
| RelaxedConstraint.NotBelowBump | pkg/version/constraint.go:234-259 | a release that starts with a bump's segments up to k, after which the bump is all zeros, is not below the bump |
| RelaxedConstraint.BumpPrefixOrder | pkg/version/version.go:80-86 | equal up to k, with only zeros to beat after it, orders at least as high |
| RelaxedConstraint.EqualIsExact | pkg/version/constraint.go:210-212 | "=" has no wildcard meaning: continuing the operand with zeros and then a non-zero segment is greater and not equal |
| RelaxedConstraint.EqualIgnoresZeros | pkg/version/constraint.go:210-212 | trailing zero segments and build metadata do not matter to "=" |
| RelaxedConstraint.EmptyOperand | pkg/version/constraint.go:119-126 | the empty clause parses, to the single text segment "*" |
| RelaxedConstraint.EmptyClauseMatchesNothing | pkg/version/constraint.go:119-126 | the empty clause holds for no parsed version |
| RelaxedConstraint.StarRendersApart | pkg/version/constraint.go:119-126 | a parsed version never renders like the "*" operand |
| RelaxedConstraint.StarOrder | pkg/version/constraint.go:119-126 | a parsed version sorts below the lone text segment "*" |
| RelaxedConstraint.ParsedUsable | pkg/version/constraint.go:73-103 | every operand of a parsed constraint set is printable |
| RelaxedConstraint.ImproperGroupFails | pkg/version/constraint.go:79-81 | an OR-group outside the validity grammar makes the whole text fail |
| RelaxedConstraint.CvStart | pkg/version/constraint.go:12-14 | every operand text begins with a wildcard-field character, or 'v' followed by one |
| RelaxedConstraint.LeadingImproper | pkg/version/constraint.go:54-57 | a group whose first operator is outside the table, or is followed by no operand start, is invalid |
| RelaxedConstraint.ImproperEqualsText | pkg/version/constraint_test.go:17 | "= abc" is invalid |
| RelaxedConstraint.ImproperAtLeastText | pkg/version/constraint_test.go:25 | ">= bar" is invalid |
| RelaxedConstraint.ImproperLeadingText | pkg/version/constraint_test.go:26 | "BAR >= 1.2.3" is invalid |
| RelaxedConstraint.ImproperLessThanText | pkg/version/constraint_test.go:18 | " < foo" is invalid: it is the second OR-group of the test text that joins "> 1.0" and "< foo" |
| Results.CollectAll | pkg/version/constraint.go:77-97 | a success holds one value per item |
| Results.CollectAllSuccess | pkg/version/constraint.go:77-97 | succeeds exactly when every item does, and then holds their values in order |
| Results.CollectAllFailure | pkg/version/constraint.go:77-97 | a failure carries the error of an item before which every item succeeds |
| Results.CollectAllFirstFailure | pkg/semver/constraint.go:68-78 | the first failing item decides the error |

## Left out

- Regular expressions: each expression is replaced by a hand-written recogniser for the texts it is applied to. Go's RE2 engine is not modelled. The relaxed validity expression is modelled as "some split of the text into clauses matches", because a greedy scan does not decide it.
- Map iteration order in the two `init` functions: it only orders the operator alternatives inside the expressions. The recognisers take the whole run of operator characters, which is what the expressions match whatever the order.
- The `Any`, `Empty` and `PreString` segment types are outside this model. Only their comparison against `BigInt` (`pkg/part/bigint.go:43-51`) is modelled.
- `Int64.Compare` against a Uint64, and `Uint64.Compare` against an Int64, panic (`pkg/part/int.go:28-29`, `59-60`). The model excludes them by a precondition (`Part.Defined`) instead of modelling the panic. `Parts.Compare` is likewise restricted to lists that never reach those cases (`PartList.CompareSafe`).
- RelaxedConstraint.PessimisticBump, RelaxedConstraint.TildeBump, RelaxedConstraint.CaretBump: the relaxed `Version` methods `PessimisticBump`, `TildeBump` and `CaretBump` are modelled from the comment tables at `pkg/version/constraint.go:238-259` and the tests at `pkg/version/constraint_test.go:150-216`, not from their own code.
- RelaxedConstraint.IncPart: a text segment has no successor, and is left unchanged by a bump.
- SemVer.TildeBumpGreater, SemVer.CaretBumpGreater and the range lemmas require the raised field to be below MaxUint64. The uint64 `+= 1` wrap itself is modelled (`SemVer.Inc`, `RelaxedConstraint.IncPart`).
- `pkg/version/constraint.go:140` assigns `part.NewParts(m[6])` to the string field `preRelease`, which does not type-check. The model stores the text `m[6]` itself, which is the only value that field can hold.
- The empty relaxed constraint "" gets the operand `[String("*")]` (`pkg/version/constraint.go:119-126`). Every parsed version sorts below it, so it matches nothing. This is modelled as written.
- The `ConstraintOption` functions (`WithPreRelease`, `WithZeroPadding`) are represented only by the `Conf` record they set. Variadic options become that record as a parameter.
- Error values: errors are datatypes that carry the offending text or the strconv error kind. The wrapping and the message formats are not modelled.
- `Constraint.Version`, `Constraint.Operator`, `Constraints.List` and the version collections (`sort.Interface`) are accessors or wrappers, outside this model. `version_collection_test.go` is not part of this model.
- Text encoding: strings are sequences of code points. Invalid UTF-8 input is not modelled. Go orders String segments byte by byte, and for valid UTF-8 that order is the code-point order the model uses.
- I/O: none exists in the core.

## Findings

| source | as written | input that shows it | evidently intended | confidence | as-written member | corrected member |
|---|---|---|---|---|---|---|
| pkg/part/bigint.go:32-35 | a BigInt is compared against a Uint64 through `int64(o)`, which wraps for values from 2^63 up | BigInt 0 against Uint64 9223372036854775808 gives 1 | the numeric order, -1 | not executed | Part.BigIntUint64Wraps | Part.CompareBigIntUint64 |

No parser in the model produces a BigInt segment, so no other member depends on the BigInt/Uint64 comparison. `Part.CompareBigIntUint64` is proved to be the exact numeric order, and to agree with the source wherever the cast does not wrap.
