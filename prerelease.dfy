/**
 * Pre-release precedence (package prerelease): a release outranks every
 * pre-release; two pre-releases compare identifier by identifier, as in
 * section 11 of Semantic Versioning 2.0.0.
 */
module PreRelease {
  import opened Wrappers
  import opened Text
  import opened Decimal
  import opened Part
  import opened PartList
  import P = Part

  /** comparePreRelease: split both on '.', then compare the segment lists with nil padding. */
  function ComparePreRelease(v1: string, v2: string): (r: int)
    ensures -1 <= r <= 1
  {
    PlainSafe(PartsOf(v1), PartsOf(v2), None, 0);
    CompareParts(PartsOf(v1), Some(PartsOf(v2)), None)
  }

  /** prerelease.Compare. */
  function Compare(p1: string, p2: string): (r: int)
    ensures -1 <= r <= 1
    ensures p1 == p2 ==> r == 0
    ensures p1 != p2 && p1 == "" ==> r == 1
    ensures p1 != p2 && p2 == "" ==> r == -1
  {
    if p1 == p2 then 0
    else if p1 == "" then 1
    else if p2 == "" then -1
    else ComparePreRelease(p1, p2)
  }

  lemma ComparePreReleaseAntisymmetric(v1: string, v2: string)
    ensures ComparePreRelease(v1, v2) == -ComparePreRelease(v2, v1)
  {
    ComparePartsAntisymmetric(PartsOf(v1), PartsOf(v2), None);
  }

  /** Swapping the operands negates the result. */
  lemma CompareAntisymmetric(p1: string, p2: string)
    ensures Compare(p1, p2) == -Compare(p2, p1)
  {
    ComparePreReleaseAntisymmetric(p1, p2);
  }

  /** "At most" is transitive, so Compare is a total preorder. */
  lemma CompareTransitive(a: string, b: string, c: string)
    requires Compare(a, b) <= 0 && Compare(b, c) <= 0
    ensures Compare(a, c) <= 0
  {
    if a != "" && b != "" && c != "" && a != b && b != c && a != c {
      ComparePreReleaseTransitive(a, b, c);
    }
  }

  lemma ComparePreReleaseTransitive(a: string, b: string, c: string)
    requires ComparePreRelease(a, b) <= 0 && ComparePreRelease(b, c) <= 0
    ensures ComparePreRelease(a, c) <= 0
  {
    var pa, pb, pc := PartsOf(a), PartsOf(b), PartsOf(c);
    PlainSafe(pa, pb, None, 0);
    PlainSafe(pb, pc, None, 0);
    ComparePartsTransitive(pa, pb, pc, None);
  }

  /**
   * Two pre-releases tie exactly when they are the same text or split into
   * the same segments; "alpha.01" and "alpha.1" tie.
   */
  lemma CompareZero(a: string, b: string)
    ensures Compare(a, b) == 0 <==> a == b || (a != "" && b != "" && PartsOf(a) == PartsOf(b))
  {
    ComparePartsZeroNilPad(PartsOf(a), PartsOf(b));
  }

  // ---------------------------------------------------------------------
  // Identifier-level statements
  // ---------------------------------------------------------------------

  /** Dot-free identifiers, at least one of them. */
  predicate Identifiers(xs: seq<string>) {
    |xs| >= 1 && forall j | 0 <= j < |xs| :: '.' !in xs[j]
  }

  function Segments(xs: seq<string>): (ps: seq<Part>)
    ensures |ps| == |xs| && AllPlain(ps)
    ensures forall j | 0 <= j < |xs| :: ps[j] == NewPart(xs[j])
  {
    seq(|xs|, j requires 0 <= j < |xs| => NewPart(xs[j]))
  }

  lemma PartsOfJoin(xs: seq<string>)
    requires Identifiers(xs)
    ensures PartsOf(Join(xs, ".")) == Segments(xs)
  {
    SplitJoin(xs, '.');
  }

  /**
   * Among identifier lists that agree up to position k, the pair of
   * identifiers at k decides: numbers by value, numbers before other
   * text, other text by strings.Compare.
   */
  lemma FirstDifferingIdentifier(xs: seq<string>, ys: seq<string>, k: nat)
    requires Identifiers(xs) && Identifiers(ys)
    requires k < |xs| && k < |ys| && xs[..k] == ys[..k] && xs[k] != "" && ys[k] != ""
    requires NewPart(xs[k]) != NewPart(ys[k])
    ensures Compare(Join(xs, "."), Join(ys, ".")) == P.Compare(NewPart(xs[k]), Some(NewPart(ys[k])))
  {
    var a, b := Join(xs, "."), Join(ys, ".");
    PartsOfJoin(xs);
    PartsOfJoin(ys);
    var ps, os := Segments(xs), Segments(ys);
    assert ps[..k] == os[..k] by {
      forall j | 0 <= j < k
        ensures ps[j] == os[j]
      {
        assert xs[j] == xs[..k][j] && ys[j] == ys[..k][j];
      }
    }
    FirstDifference(ps, os, None, k);
    JoinNonEmpty(xs, k);
    JoinNonEmpty(ys, k);
  }

  lemma {:induction false} JoinNonEmpty(xs: seq<string>, k: nat)
    requires |xs| >= 1 && k < |xs| && xs[k] != ""
    ensures Join(xs, ".") != ""
    decreases |xs|
  {
    if k > 0 {
      JoinNonEmpty(xs[1..], k - 1);
    }
  }

  /** A pre-release whose identifiers are a proper prefix of another's is smaller. */
  lemma ProperPrefixIdentifiers(xs: seq<string>, ys: seq<string>)
    requires Identifiers(xs) && Identifiers(xs + ys) && ys != [] && xs[0] != ""
    ensures Compare(Join(xs, "."), Join(xs + ys, ".")) == -1
  {
    var a, b := Join(xs, "."), Join(xs + ys, ".");
    SegmentsAppend(xs, ys);
    PartsOfJoin(xs);
    PartsOfJoin(xs + ys);
    ProperPrefixSmaller(Segments(xs), Segments(ys));
    JoinNonEmpty(xs, 0);
    JoinNonEmpty(xs + ys, 0);
  }

  lemma SegmentsAppend(xs: seq<string>, ys: seq<string>)
    ensures Segments(xs + ys) == Segments(xs) + Segments(ys)
  {
  }

  /**
   * The ordering of section 11 of Semantic Versioning 2.0.0, on its own
   * example chain alpha < alpha.1 < alpha.beta < beta < beta.2 < beta.11
   * < rc.1, with the release last.
   */
  lemma PrecedenceAlpha()
    ensures Compare("alpha", "alpha.1") == -1
  {
    assert Join(["alpha"] + ["1"], ".") == "alpha.1";
    ProperPrefixIdentifiers(["alpha"], ["1"]);
  }

  lemma PrecedenceAlphaOne()
    ensures Compare("alpha.1", "alpha.beta") == -1
  {
    assert NewPart("1") == Uint64(1) && NewPart("beta") == Str("beta");
    assert Join(["alpha", "1"], ".") == "alpha.1";
    assert Join(["alpha", "beta"], ".") == "alpha.beta";
    assert P.Compare(NewPart("1"), Some(NewPart("beta"))) == -1;
    FirstDifferingIdentifier(["alpha", "1"], ["alpha", "beta"], 1);
  }

  lemma PrecedenceAlphaBeta()
    ensures Compare("alpha.beta", "beta") == -1
  {
    assert Join(["alpha", "beta"], ".") == "alpha.beta";
    assert NewPart("alpha") == Str("alpha") && NewPart("beta") == Str("beta");
    assert P.Compare(NewPart("alpha"), Some(NewPart("beta"))) == -1;
    FirstDifferingIdentifier(["alpha", "beta"], ["beta"], 0);
  }

  lemma PrecedenceBeta()
    ensures Compare("beta", "beta.2") == -1
  {
    assert Join(["beta"] + ["2"], ".") == "beta.2";
    ProperPrefixIdentifiers(["beta"], ["2"]);
  }

  lemma PrecedenceBetaTwo()
    ensures Compare("beta.2", "beta.11") == -1
  {
    assert NewPart("2") == Uint64(2);
    assert Value("11") == 11;
    assert NewPart("11") == Uint64(11);
    assert Join(["beta", "2"], ".") == "beta.2";
    assert Join(["beta", "11"], ".") == "beta.11";
    assert P.Compare(NewPart("2"), Some(NewPart("11"))) == -1;
    FirstDifferingIdentifier(["beta", "2"], ["beta", "11"], 1);
  }

  lemma PrecedenceBetaEleven()
    ensures Compare("beta.11", "rc.1") == -1
  {
    assert Join(["beta", "11"], ".") == "beta.11";
    assert Join(["rc", "1"], ".") == "rc.1";
    assert NewPart("beta") == Str("beta") && NewPart("rc") == Str("rc");
    assert P.Compare(NewPart("beta"), Some(NewPart("rc"))) == -1;
    FirstDifferingIdentifier(["beta", "11"], ["rc", "1"], 0);
  }

  /** Numbers compare by value: alpha.10 is above alpha.2. */
  lemma NumericIdentifiersByValue()
    ensures Compare("alpha.10", "alpha.2") == 1
  {
    assert NewPart("2") == Uint64(2);
    assert Value("10") == 10;
    assert NewPart("10") == Uint64(10);
    assert Join(["alpha", "10"], ".") == "alpha.10";
    assert Join(["alpha", "2"], ".") == "alpha.2";
    assert P.Compare(NewPart("10"), Some(NewPart("2"))) == 1;
    FirstDifferingIdentifier(["alpha", "10"], ["alpha", "2"], 1);
  }

  /** "-2" is not an unsigned number, so it is text and sorts after the number 4. */
  lemma HyphenIdentifierIsText()
    ensures Compare("beta.4", "beta.-2") == -1
  {
    assert NewPart("4") == Uint64(4);
    assert !IsDigit("-2"[0]);
    assert NewPart("-2") == Str("-2");
    assert Join(["beta", "4"], ".") == "beta.4";
    assert Join(["beta", "-2"], ".") == "beta.-2";
    assert P.Compare(NewPart("4"), Some(NewPart("-2"))) == -1;
    FirstDifferingIdentifier(["beta", "4"], ["beta", "-2"], 1);
  }

  /** Identifier lists that parse to the same segments tie. */
  lemma SameSegmentsTie(xs: seq<string>, ys: seq<string>)
    requires Identifiers(xs) && Identifiers(ys) && xs[0] != "" && ys[0] != ""
    requires Segments(xs) == Segments(ys)
    ensures Compare(Join(xs, "."), Join(ys, ".")) == 0
  {
    PartsOfJoin(xs);
    PartsOfJoin(ys);
    JoinNonEmpty(xs, 0);
    JoinNonEmpty(ys, 0);
    CompareZero(Join(xs, "."), Join(ys, "."));
  }

  /** Leading zeros are dropped by the numeric parse: alpha.01 ties with alpha.1. */
  lemma LeadingZeroIdentifierTies()
    ensures Compare("alpha.01", "alpha.1") == 0
  {
    var xs, ys := ["alpha", "01"], ["alpha", "1"];
    assert Join(xs, ".") == "alpha.01";
    assert Join(ys, ".") == "alpha.1";
    assert Segments(xs) == Segments(ys) by {
      assert Value("01") == 1;
      assert NewPart("01") == NewPart("1");
    }
    SameSegmentsTie(xs, ys);
  }
}
