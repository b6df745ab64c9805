/**
 * The strict flavour's version (package semver): exactly
 * major.minor.patch, an optional pre-release and optional build metadata,
 * as in Semantic Versioning 2.0.0, plus the wildcard flags a constraint
 * operand carries and the tilde/caret upper bounds.
 */
module SemVer {
  import opened Wrappers
  import opened Text
  import opened Decimal
  import opened Part
  import P = Part
  import PreRelease

  datatype Version = Version(
    major: u64, minor: u64, patch: u64,
    preRelease: string, buildMetadata: string,
    majorX: bool, minorX: bool, patchX: bool,
    original: string)

  /**
   * Why NewVersion failed.  The patch field's error is labelled "minor",
   * as the source labels it.
   */
  datatype ParseError = InvalidSemVer | InvalidNumber(field: string, err: NumError)

  // ---------------------------------------------------------------------
  // The grammar
  // ---------------------------------------------------------------------

  /** A numeric core field: 0, or digits without a leading zero. */
  predicate NumId(s: string) { Canonical(s) }

  /** A pre-release identifier: alphanumerics and hyphens; if all digits, no leading zero. */
  predicate PreId(s: string) {
    s != [] && AllIn(s, Ident) && (AllIn(s, Digits) ==> Canonical(s))
  }

  predicate PreIds(s: string) {
    var fs := Split(s, ".");
    forall i | 0 <= i < |fs| :: PreId(fs[i])
  }

  /** The anchored SemVer 2.0.0 regular expression, as a predicate. */
  predicate Matches(s: string) {
    var p := Cut(s);
    var fs := Split(p.core, ".");
    && |fs| == 3 && NumId(fs[0]) && NumId(fs[1]) && NumId(fs[2])
    && (p.pre.Some? ==> PreIds(p.pre.value))
    && (p.build.Some? ==> DotFields(p.build.value, Ident))
  }

  /** NewVersion: the grammar first, then each number through NewUint64. */
  function NewVersion(s: string): (r: Result<Version, ParseError>)
    ensures !Matches(s) ==> r == Failure(InvalidSemVer)
    ensures r.Success? <==>
      Matches(s) && var fs := Split(Cut(s).core, ".");
      Value(fs[0]) <= MaxUint64 && Value(fs[1]) <= MaxUint64 && Value(fs[2]) <= MaxUint64
    ensures r.Success? ==> r.value.original == s && !r.value.majorX && !r.value.minorX && !r.value.patchX
  {
    if !Matches(s) then Failure(InvalidSemVer)
    else
      var p := Cut(s);
      var fs := Split(p.core, ".");
      match (NewUint64(fs[0]), NewUint64(fs[1]), NewUint64(fs[2]))
      case (Failure(e), _, _) => Failure(InvalidNumber("major", e))
      case (_, Failure(e), _) => Failure(InvalidNumber("minor", e))
      case (_, _, Failure(e)) => Failure(InvalidNumber("minor", e))
      case (Success(a), Success(b), Success(c)) =>
        Success(Version(a.u, b.u, c.u,
                        if p.pre.Some? then p.pre.value else "",
                        if p.build.Some? then p.build.value else "",
                        false, false, false, s))
  }

  /** String: major.minor.patch, then -pre and +build when present. */
  function String(v: Version): string {
    Dec(v.major) + "." + Dec(v.minor) + "." + Dec(v.patch)
    + (if v.preRelease != "" then "-" + v.preRelease else "")
    + (if v.buildMetadata != "" then "+" + v.buildMetadata else "")
  }

  function Original(v: Version): (r: string)
    ensures r == v.original
  {
    v.original
  }

  // ---------------------------------------------------------------------
  // Round trips
  // ---------------------------------------------------------------------

  lemma PiecesNonEmpty(s: string, k: CharClass)
    requires DotFields(s, k)
    ensures s != ""
  {
    SplitEmpty(".");
  }

  lemma PreIdsNonEmpty(s: string)
    requires PreIds(s)
    ensures s != ""
  {
    SplitEmpty(".");
  }

  lemma JoinThree(a: string, b: string, c: string)
    ensures Join([a, b, c], ".") == a + "." + b + "." + c
  {
    assert [a, b, c][1..] == [b, c];
    assert [b, c][1..] == [c];
    calc {
      Join([a, b, c], ".");
      a + "." + Join([b, c], ".");
      a + "." + (b + "." + c);
      a + "." + b + "." + c;
    }
  }

  /** Rendering a parsed version gives back the text it was parsed from. */
  lemma ParseThenString(s: string)
    requires NewVersion(s).Success?
    ensures String(NewVersion(s).value) == s
  {
    var p := Cut(s);
    var v := NewVersion(s).value;
    RenderCore(p.core);
    if p.pre.Some? {
      PreIdsNonEmpty(p.pre.value);
    }
    if p.build.Some? {
      PiecesNonEmpty(p.build.value, Ident);
    }
    assert v.preRelease != "" <==> p.pre.Some?;
    assert v.buildMetadata != "" <==> p.build.Some?;
  }

  // ---------------------------------------------------------------------
  // Rejected texts, and examples from the test table
  // ---------------------------------------------------------------------

  /** A text without '-' or '+' is only a core, which must be three canonical numbers. */
  lemma NoCore(s: string)
    requires '+' !in s && '-' !in s
    requires var fs := Split(s, "."); !(|fs| == 3 && NumId(fs[0]) && NumId(fs[1]) && NumId(fs[2]))
    ensures NewVersion(s) == Failure(InvalidSemVer)
  {
    CutAtNone(s, '+');
    CutAtNone(s, '-');
  }

  /** A pre-release outside the grammar rejects the whole text. */
  lemma BadPreRelease(core: string, pre: string)
    requires '+' !in core && '-' !in core && '+' !in pre && !PreIds(pre)
    ensures NewVersion(core + "-" + pre) == Failure(InvalidSemVer)
  {
    var s := core + "-" + pre;
    assert s == core + ['-'] + pre;
    CutAtFirst(core, '-', pre);
    assert '+' !in s;
    CutAtNone(s, '+');
  }

  /** Two dot-free identifiers form a valid pre-release exactly when each is valid. */
  lemma PreIdsTwo(a: string, b: string)
    requires '.' !in a && '.' !in b
    ensures PreIds(a + "." + b) <==> PreId(a) && PreId(b)
  {
    SplitNoDot(b);
    SplitAtDot(a, b);
    var fs := Split(a + "." + b, ".");
    assert fs == [a, b];
    assert fs[0] == a && fs[1] == b;
  }

  /** "1.2.3" is a release. */
  lemma ReleaseExample(major: string, minor: string, patch: string)
    requires major == "1" && minor == "2" && patch == "3"
    ensures var s := major + "." + minor + "." + patch;
      NewVersion(s) == Success(Version(1, 2, 3, "", "", false, false, false, s))
  {
    var v := Version(1, 2, 3, "", "", false, false, false, "");
    assert String(v) == major + "." + minor + "." + patch;
    StringThenParse(v);
  }

  /** "1.2.3+test.01": build identifiers may have leading zeros. */
  lemma BuildExample(core: string, build: string)
    requires core == "1.2.3" && build == "test.01"
    ensures NewVersion(core + "+" + build).Success?
    ensures NewVersion(core + "+" + build).value.buildMetadata == build
  {
    var v := Version(1, 2, 3, "", build, false, false, false, "");
    TestBuild();
    assert WellFormed(v);
    assert String(v) == core + "+" + build;
    StringThenParse(v);
  }

  /** "test.01" is a valid build. */
  lemma TestBuild()
    ensures DotFields("test.01", Ident)
  {
    DotFieldsOne("01", Ident);
    DotFieldsCons("test", "01", Ident);
    assert "test" + "." + "01" == "test.01";
  }

  /** "1.2.3-alpha.01": a numeric pre-release identifier with a leading zero. */
  lemma LeadingZeroExample(core: string, pre: string)
    requires core == "1.2.3" && pre == "alpha.01"
    ensures NewVersion(core + "-" + pre) == Failure(InvalidSemVer)
  {
    assert !PreId("01");
    PreIdsTwo("alpha", "01");
    assert "alpha" + "." + "01" == pre;
    assert !PreIds(pre);
    BadPreRelease(core, pre);
  }

  /** "1.0" and "1.7rc2": two fields, the second one possibly with letters glued to it. */
  lemma TwoFieldsExample(major: string, minor: string)
    requires major == "1" && (minor == "0" || minor == "7rc2")
    ensures NewVersion(major + "." + minor) == Failure(InvalidSemVer)
  {
    var s := major + "." + minor;
    SplitNoDot(minor);
    SplitAtDot(major, minor);
    assert |Split(s, ".")| == 2;
    NoCore(s);
  }

  /** "v1.2.3": a leading 'v'. */
  lemma LeadingVExample(first: string, rest: string)
    requires first == "v1" && rest == "2.3"
    ensures NewVersion(first + "." + rest) == Failure(InvalidSemVer)
  {
    var s := first + "." + rest;
    SplitAtDot(first, rest);
    assert Split(s, ".")[0] == first;
    assert !NumId(first) by { assert !IsDigit(first[0]); }
    NoCore(s);
  }

  /** Three canonical fields joined by dots render back to themselves. */
  lemma RenderCore(core: string)
    requires var fs := Split(core, "."); |fs| == 3 && NumId(fs[0]) && NumId(fs[1]) && NumId(fs[2])
    ensures var fs := Split(core, ".");
      Dec(Value(fs[0])) + "." + Dec(Value(fs[1])) + "." + Dec(Value(fs[2])) == core
  {
    var fs := Split(core, ".");
    DecValue(fs[0]);
    DecValue(fs[1]);
    DecValue(fs[2]);
    JoinSplit(core, ".");
    JoinThree(fs[0], fs[1], fs[2]);
    assert fs == [fs[0], fs[1], fs[2]];
  }

  /** Well-formed fields: what String can render and NewVersion read back. */
  predicate WellFormed(v: Version) {
    && (v.preRelease != "" ==> PreIds(v.preRelease))
    && (v.buildMetadata != "" ==> DotFields(v.buildMetadata, Ident))
  }

  /** Parsing the rendering of well-formed fields gives the same fields back. */
  lemma StringThenParse(v: Version)
    requires WellFormed(v)
    ensures NewVersion(String(v)).Success?
    ensures var w := NewVersion(String(v)).value;
      w == v.(majorX := false, minorX := false, patchX := false, original := String(v))
  {
    var s := String(v);
    var core := Dec(v.major) + "." + Dec(v.minor) + "." + Dec(v.patch);
    var xs := [Dec(v.major), Dec(v.minor), Dec(v.patch)];
    RenderedCore(v.major, v.minor, v.patch);
    if v.preRelease != "" {
      DotFieldsLackPre(v.preRelease);
    }
    CutRendered(core, v.preRelease, v.buildMetadata);
    var p := Cut(s);
    assert p.core == core;
    assert Split(p.core, ".") == xs;
    assert Matches(s);
  }

  /** The rendered numeric core splits back into the three renderings. */
  lemma RenderedCore(major: u64, minor: u64, patch: u64)
    ensures var core := Dec(major) + "." + Dec(minor) + "." + Dec(patch);
      && Split(core, ".") == [Dec(major), Dec(minor), Dec(patch)]
      && '+' !in core && '-' !in core
  {
    var xs := [Dec(major), Dec(minor), Dec(patch)];
    forall i | 0 <= i < |xs|
      ensures '.' !in xs[i] && '+' !in xs[i] && '-' !in xs[i]
    {
      var n := if i == 0 then major else if i == 1 then minor else patch;
      assert xs[i] == Dec(n);
      DecLacks(n, '.');
      DecLacks(n, '+');
      DecLacks(n, '-');
    }
    JoinThree(xs[0], xs[1], xs[2]);
    SplitJoin(xs, '.');
    JoinLacks(xs, ".", '+');
    JoinLacks(xs, ".", '-');
  }

  lemma DotFieldsLackPre(pre: string)
    requires PreIds(pre)
    ensures '+' !in pre
  {
    DotFieldsLack(pre, Ident, '+');
  }

  // ---------------------------------------------------------------------
  // Comparison
  // ---------------------------------------------------------------------

  /** Compare: major, minor and patch as Uint64 segments, then the pre-release. */
  function Compare(v: Version, o: Version): (r: int)
    ensures -1 <= r <= 1
    ensures v.major != o.major ==> r == Cmp(v.major, o.major)
    ensures v.major == o.major && v.minor != o.minor ==> r == Cmp(v.minor, o.minor)
    ensures v.major == o.major && v.minor == o.minor && v.patch != o.patch ==> r == Cmp(v.patch, o.patch)
    ensures v.major == o.major && v.minor == o.minor && v.patch == o.patch ==>
      r == PreRelease.Compare(v.preRelease, o.preRelease)
  {
    var r1 := P.Compare(Uint64(v.major), Some(Uint64(o.major)));
    if r1 != 0 then r1
    else
      var r2 := P.Compare(Uint64(v.minor), Some(Uint64(o.minor)));
      if r2 != 0 then r2
      else
        var r3 := P.Compare(Uint64(v.patch), Some(Uint64(o.patch)));
        if r3 != 0 then r3
        else PreRelease.Compare(v.preRelease, o.preRelease)
  }

  lemma CompareAntisymmetric(v: Version, o: Version)
    ensures Compare(v, o) == -Compare(o, v)
  {
    PreRelease.CompareAntisymmetric(v.preRelease, o.preRelease);
  }

  lemma CompareTransitive(a: Version, b: Version, c: Version)
    requires Compare(a, b) <= 0 && Compare(b, c) <= 0
    ensures Compare(a, c) <= 0
  {
    if a.major == b.major == c.major && a.minor == b.minor == c.minor && a.patch == b.patch == c.patch {
      PreRelease.CompareTransitive(a.preRelease, b.preRelease, c.preRelease);
    }
  }

  /** Build metadata, the wildcard flags and the original text never affect Compare. */
  lemma CompareIgnoresBuild(v: Version, o: Version, b: string)
    ensures Compare(v.(buildMetadata := b), o) == Compare(v, o)
    ensures Compare(v.(original := b), o) == Compare(v, o)
    ensures Compare(v.(majorX := true, minorX := true, patchX := true), o) == Compare(v, o)
  {
  }

  function GreaterThan(v: Version, o: Version): (r: bool)
    ensures r <==> Compare(o, v) < 0
  {
    CompareAntisymmetric(v, o);
    Compare(v, o) > 0
  }

  function LessThan(v: Version, o: Version): (r: bool)
    ensures r <==> GreaterThan(o, v)
  {
    Compare(v, o) < 0
  }

  function GreaterThanOrEqual(v: Version, o: Version): (r: bool)
    ensures r <==> !LessThan(v, o)
  {
    Compare(v, o) >= 0
  }

  function LessThanOrEqual(v: Version, o: Version): (r: bool)
    ensures r <==> !GreaterThan(v, o)
  {
    Compare(v, o) <= 0
  }

  function Equal(v: Version, o: Version): (r: bool)
    ensures r <==> !LessThan(v, o) && !GreaterThan(v, o)
    ensures r <==> v.major == o.major && v.minor == o.minor && v.patch == o.patch
                   && PreRelease.Compare(v.preRelease, o.preRelease) == 0
  {
    Compare(v, o) == 0
  }

  // ---------------------------------------------------------------------
  // Bumps
  // ---------------------------------------------------------------------

  /** uint64 += 1, wrapping at 2^64. */
  function Inc(x: u64): (r: u64)
    ensures r == (x + 1) % 0x1_0000_0000_0000_0000
    ensures x < MaxUint64 ==> r == x + 1
  {
    if x == MaxUint64 then 0 else x + 1
  }

  /** TildeBump: the exclusive upper bound of a tilde range. */
  function TildeBump(v: Version): (r: Version)
    ensures r.preRelease == "" && r.buildMetadata == ""
    ensures r.majorX == v.majorX && r.minorX == v.minorX && r.patchX == v.patchX && r.original == v.original
    ensures v.majorX || v.minorX ==> r.major == Inc(v.major) && r.minor == v.minor && r.patch == v.patch
    ensures !v.majorX && !v.minorX && v.patchX ==> r.major == v.major && r.minor == Inc(v.minor) && r.patch == v.patch
    ensures !v.majorX && !v.minorX && !v.patchX ==> r.major == v.major && r.minor == Inc(v.minor) && r.patch == 0
  {
    var w :=
      if v.majorX then v.(major := Inc(v.major))
      else if v.minorX then v.(major := Inc(v.major))
      else if v.patchX then v.(minor := Inc(v.minor))
      else v.(minor := Inc(v.minor), patch := 0);
    w.(preRelease := "", buildMetadata := "")
  }

  /** CaretBump: the exclusive upper bound of a caret range. */
  function CaretBump(v: Version): (r: Version)
    ensures r.preRelease == "" && r.buildMetadata == ""
    ensures r.majorX == v.majorX && r.minorX == v.minorX && r.patchX == v.patchX && r.original == v.original
    ensures !v.majorX && v.major != 0 ==> r.major == Inc(v.major) && r.minor == 0 && r.patch == 0
    ensures v.majorX ==> r.major == MaxUint64 && r.minor == v.minor && r.patch == v.patch
    ensures !v.majorX && v.major == 0 && !v.minorX && v.minor != 0 ==>
      r.major == 0 && r.minor == Inc(v.minor) && r.patch == 0
    ensures !v.majorX && v.major == 0 && v.minorX ==>
      r.major == 1 && r.minor == v.minor && r.patch == v.patch
    ensures !v.majorX && v.major == 0 && !v.minorX && v.minor == 0 && !v.patchX && v.patch != 0 ==>
      r.major == 0 && r.minor == 0 && r.patch == Inc(v.patch)
    ensures !v.majorX && v.major == 0 && !v.minorX && v.minor == 0 && v.patchX ==>
      r.major == 0 && r.minor == 1 && r.patch == v.patch
    ensures !v.majorX && v.major == 0 && !v.minorX && v.minor == 0 && !v.patchX && v.patch == 0 ==>
      r.major == 0 && r.minor == 0 && r.patch == 0
  {
    var w :=
      if !v.majorX && v.major != 0 then v.(major := Inc(v.major), minor := 0, patch := 0)
      else if v.majorX then v.(major := MaxUint64)
      else if !v.minorX && v.minor != 0 then v.(minor := Inc(v.minor), patch := 0)
      else if v.minorX then v.(major := Inc(v.major))
      else if !v.patchX && v.patch != 0 then v.(patch := Inc(v.patch))
      else if v.patchX then v.(minor := Inc(v.minor))
      else v;
    w.(preRelease := "", buildMetadata := "")
  }

  predicate Release(v: Version) { v.preRelease == "" }

  /** The bumped component, short of uint64 overflow. */
  predicate TildeFits(v: Version) {
    if v.majorX || v.minorX then v.major < MaxUint64 else v.minor < MaxUint64
  }

  /** Without overflow the tilde bound is strictly above the version. */
  lemma TildeBumpGreater(v: Version)
    requires TildeFits(v)
    ensures Compare(TildeBump(v), v) == 1
  {
  }

  predicate CaretFits(v: Version) {
    if !v.majorX && v.major != 0 then v.major < MaxUint64
    else if v.majorX then true
    else if !v.minorX && v.minor != 0 then v.minor < MaxUint64
    else if v.minorX then v.major < MaxUint64
    else if !v.patchX && v.patch != 0 then v.patch < MaxUint64
    else if v.patchX then v.minor < MaxUint64
    else true
  }

  /**
   * Without overflow the caret bound is strictly above the version, except
   * for a wildcard-free 0.0.0 and a wildcard major already at MaxUint64.
   */
  lemma CaretBumpGreater(v: Version)
    requires CaretFits(v)
    requires v.majorX || v.minorX || v.patchX || v.major != 0 || v.minor != 0 || v.patch != 0
    requires v.majorX ==> v.major < MaxUint64
    ensures Compare(CaretBump(v), v) == 1
  {
  }

  /** A wildcard-free 0.0.0 is its own caret bound. */
  lemma CaretBumpZero(v: Version)
    requires !v.majorX && !v.minorX && !v.patchX && v.major == 0 && v.minor == 0 && v.patch == 0
    ensures Compare(CaretBump(v), v) == -PreRelease.Compare(v.preRelease, "")
    ensures Release(v) ==> Compare(CaretBump(v), v) == 0
  {
    PreRelease.CompareAntisymmetric(v.preRelease, "");
  }

  /**
   * For a release version w, being below the tilde bound of a fully
   * specified c means sharing c's major.minor or being below it.
   */
  lemma TildeRange(c: Version, w: Version)
    requires !c.majorX && !c.minorX && !c.patchX && c.minor < MaxUint64 && Release(w)
    ensures Compare(c, w) <= 0 && Compare(w, TildeBump(c)) < 0
        <==> Compare(c, w) <= 0 && w.major == c.major && w.minor == c.minor
  {
  }

  /** For a release w and a fully specified c with a non-zero major, the caret range is c's major. */
  lemma CaretRangeMajor(c: Version, w: Version)
    requires !c.majorX && !c.minorX && !c.patchX && c.major != 0 && c.major < MaxUint64 && Release(w)
    ensures Compare(c, w) <= 0 && Compare(w, CaretBump(c)) < 0
        <==> Compare(c, w) <= 0 && w.major == c.major
  {
  }

  /** With a zero major and a non-zero minor, the caret range is c's 0.minor. */
  lemma CaretRangeMinor(c: Version, w: Version)
    requires !c.majorX && !c.minorX && !c.patchX && c.major == 0 && c.minor != 0
    requires c.minor < MaxUint64 && Release(w)
    ensures Compare(c, w) <= 0 && Compare(w, CaretBump(c)) < 0
        <==> Compare(c, w) <= 0 && w.major == 0 && w.minor == c.minor
  {
  }

  /** With 0.0.patch, patch non-zero, the caret range holds exactly one release. */
  lemma CaretRangePatch(c: Version, w: Version)
    requires !c.majorX && !c.minorX && !c.patchX && c.major == 0 && c.minor == 0 && c.patch != 0
    requires c.patch < MaxUint64 && Release(c) && Release(w)
    ensures Compare(c, w) <= 0 && Compare(w, CaretBump(c)) < 0
        <==> w.major == 0 && w.minor == 0 && w.patch == c.patch
  {
  }

  /** Nothing lies in the caret range of a wildcard-free 0.0.0. */
  lemma CaretRangeZeroEmpty(c: Version, w: Version)
    requires !c.majorX && !c.minorX && !c.patchX && c.major == 0 && c.minor == 0 && c.patch == 0
    requires Release(c)
    ensures !(Compare(c, w) <= 0 && Compare(w, CaretBump(c)) < 0)
  {
    CaretBumpZero(c);
    if Compare(c, w) <= 0 {
      CompareTransitive(CaretBump(c), c, w);
      CompareAntisymmetric(w, CaretBump(c));
    }
  }
}
