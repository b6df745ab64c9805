/**
 * The relaxed flavour's version (package version): any number of
 * dot-separated decimal segments, an optional pre-release that may leave
 * out its '-' when it starts with a letter, and optional build metadata.
 * Comparison pads the shorter segment list with zeros, so trailing zero
 * segments do not matter, and String renders a canonical form.
 */
module Relaxed {
  import opened Wrappers
  import opened Text
  import opened Decimal
  import opened Results
  import opened Part
  import opened PartList
  import P = Part
  import PreRelease

  datatype Version = Version(segments: seq<Part>, buildMetadata: string, preRelease: string, original: string)

  datatype ParseError =
    | Malformed(text: string)  // the text is outside the version grammar
    | BadSegment(err: NumError) // a segment does not fit in 64 bits

  // ---------------------------------------------------------------------
  // The grammar
  // ---------------------------------------------------------------------

  /** The captures of the anchored version expression that NewVersion uses. */
  datatype Match = Match(numbers: string, preRelease: string, build: string)

  /**
   * The pre-release alternatives in the order the expression tries them:
   * '-' followed by identifiers, else identifiers that do not start with a
   * digit (a letter, '-' or '~') with no '-' in front.
   */
  function PreReleaseOf(head: string): (r: Option<string>)
    ensures head == "" ==> r == Some("")
    ensures r.Some? && r.value != "" ==> DotFields(r.value, RelaxedIdent)
  {
    if head == "" then Some("")
    else if head[0] == '-' && DotFields(head[1..], RelaxedIdent) then Some(head[1..])
    else if !IsDigit(head[0]) && DotFields(head, RelaxedIdent) then Some(head)
    else None
  }

  /**
   * What follows the numbers: the pre-release up to the first '+', then
   * the build after it.
   */
  function MatchRest(numbers: string, rest: string): (r: Option<Match>)
    ensures r.Some? ==> DotFields(r.value.numbers, Digits)
    ensures r.Some? ==> r.value.preRelease == "" || DotFields(r.value.preRelease, RelaxedIdent)
    ensures r.Some? ==> r.value.build == "" || DotFields(r.value.build, RelaxedIdent)
  {
    var (head, build) := CutAt(rest, '+');
    if !DotFields(numbers, Digits) then None
    else if build.Some? && !DotFields(build.value, RelaxedIdent) then None
    else
      match PreReleaseOf(head)
      case None => None
      case Some(pre) => Some(Match(numbers, pre, if build.Some? then build.value else ""))
  }

  /**
   * The anchored expression: an optional 'v', then the longest run of
   * digits and dots, which must be dot-separated numbers, then the rest.
   */
  function MatchVersion(s: string): (r: Option<Match>)
    ensures r.Some? ==> DotFields(r.value.numbers, Digits)
    ensures r.Some? ==> r.value.preRelease == "" || DotFields(r.value.preRelease, RelaxedIdent)
    ensures r.Some? ==> r.value.build == "" || DotFields(r.value.build, RelaxedIdent)
  {
    var body := if |s| > 0 && s[0] == 'v' then s[1..] else s;
    var k := RunEnd(body, 0, Numeric);
    MatchRest(body[..k], body[k..])
  }

  /** NewVersion: the grammar, then every number segment through NewUint64. */
  function Parse(s: string): Result<Version, ParseError> {
    match MatchVersion(s)
    case None => Failure(Malformed(s))
    case Some(m) =>
      match CollectAll(Split(m.numbers, "."), NewUint64)
      case Failure(e) => Failure(BadSegment(e))
      case Success(segments) => Success(Version(segments, m.build, m.preRelease, s))
  }

  /** What a parsed version looks like: numeric segments and well-formed identifiers. */
  predicate WellFormed(v: Version) {
    && |v.segments| >= 1
    && (forall i | 0 <= i < |v.segments| :: v.segments[i].Uint64?)
    && (v.preRelease == "" || DotFields(v.preRelease, RelaxedIdent))
    && (v.buildMetadata == "" || DotFields(v.buildMetadata, RelaxedIdent))
  }

  /** Number fields become Uint64 segments exactly when every value fits in 64 bits. */
  lemma SegmentsOf(fs: seq<string>)
    requires forall i | 0 <= i < |fs| :: fs[i] != "" && AllIn(fs[i], Digits)
    ensures CollectAll(fs, NewUint64).Success? <==> forall i | 0 <= i < |fs| :: Value(fs[i]) <= MaxUint64
    ensures CollectAll(fs, NewUint64).Success? ==>
      var segments := CollectAll(fs, NewUint64).value;
      |segments| == |fs| && forall i | 0 <= i < |fs| :: segments[i] == Uint64(Value(fs[i]))
  {
    CollectAllSuccess(fs, NewUint64);
  }

  /**
   * A text parses exactly when it matches and every segment fits in 64
   * bits; segment i is then the value of number field i, and the
   * pre-release and build are the captured ones.
   */
  lemma ParseShape(s: string)
    ensures Parse(s).Success? <==>
      MatchVersion(s).Some? &&
      forall i | 0 <= i < |Split(MatchVersion(s).value.numbers, ".")| ::
        Value(Split(MatchVersion(s).value.numbers, ".")[i]) <= MaxUint64
    ensures Parse(s).Success? ==>
      var fs := Split(MatchVersion(s).value.numbers, ".");
      var v := Parse(s).value;
      && |v.segments| == |fs|
      && (forall i | 0 <= i < |fs| :: v.segments[i] == Uint64(Value(fs[i])))
      && v.preRelease == MatchVersion(s).value.preRelease
      && v.buildMetadata == MatchVersion(s).value.build
      && v.original == s
  {
    if MatchVersion(s).Some? {
      var m := MatchVersion(s).value;
      var fs := Split(m.numbers, ".");
      SegmentsOf(fs);
      var c := CollectAll(fs, NewUint64);
      assert Parse(s) == if c.Success? then Success(Version(c.value, m.build, m.preRelease, s)) else Failure(BadSegment(c.error));
    }
  }

  /** Every parsed version is well-formed. */
  lemma ParsedWellFormed(s: string)
    requires Parse(s).Success?
    ensures WellFormed(Parse(s).value)
  {
    ParseShape(s);
  }

  // ---------------------------------------------------------------------
  // Texts outside the grammar, and examples from the test table
  // ---------------------------------------------------------------------

  /** A text that neither starts with 'v' nor with a digit or dot has no numbers, so it is malformed. */
  lemma NoNumbers(s: string)
    requires s == [] || (s[0] != 'v' && !InClass(s[0], Numeric))
    ensures Parse(s) == Failure(Malformed(s))
  {
    RunEndAt(s, 0, 0, Numeric);
    SplitEmpty(".");
    assert s[..0] == "";
  }

  /** Numbers that end with a dot are malformed, whatever follows them. */
  lemma DanglingDot(n: string, tail: string)
    requires n != [] && IsDigit(n[0]) && AllIn(n, Numeric) && n[|n| - 1] == '.'
    requires tail == [] || !InClass(tail[0], Numeric)
    ensures Parse(n + tail) == Failure(Malformed(n + tail))
  {
    MatchNumbers(n, tail);
    if DotFields(n, Digits) {
      DotFieldsEnd(n, Digits);
    }
  }

  /** Numbers followed by a pre-release without '+' match with that pre-release and no build. */
  lemma NumbersThenPreRelease(n: string, head: string)
    requires n != [] && IsDigit(n[0]) && AllIn(n, Numeric) && DotFields(n, Digits)
    requires '+' !in head && (head == [] || !InClass(head[0], Numeric))
    requires PreReleaseOf(head).Some?
    ensures MatchVersion(n + head) == Some(Match(n, PreReleaseOf(head).value, ""))
  {
    MatchNumbers(n, head);
    CutAtNone(head, '+');
  }

  /** ... and such a text parses when every number fits in 64 bits. */
  lemma ParsePreRelease(n: string, head: string)
    requires n != [] && IsDigit(n[0]) && AllIn(n, Numeric) && DotFields(n, Digits)
    requires '+' !in head && (head == [] || !InClass(head[0], Numeric))
    requires PreReleaseOf(head).Some?
    requires forall i | 0 <= i < |Split(n, ".")| :: Value(Split(n, ".")[i]) <= MaxUint64
    ensures MatchVersion(n + head) == Some(Match(n, PreReleaseOf(head).value, ""))
    ensures Parse(n + head).Success? && Parse(n + head).value.preRelease == PreReleaseOf(head).value
  {
    NumbersThenPreRelease(n, head);
    ParseShape(n + head);
  }

  /** "", "foo" and "\n1.2" are malformed. */
  lemma MalformedExamples(s: string)
    requires s == "" || s == "foo" || s == "\n1.2"
    ensures Parse(s) == Failure(Malformed(s))
  {
    NoNumbers(s);
  }

  /** "1.2.beta": the numbers stop at a dot. */
  lemma DanglingDotExample(n: string, tail: string)
    requires n == "1.2." && tail == "beta"
    ensures Parse(n + tail) == Failure(Malformed(n + tail))
  {
    DanglingDot(n, tail);
  }

  /** "1.7": two number fields. */
  lemma OneSeven()
    ensures DotFields("1.7", Digits) && Split("1.7", ".") == ["1", "7"]
  {
    SplitNoDot("7");
    SplitAtDot("1", "7");
    DotFieldsOne("7", Digits);
    DotFieldsCons("1", "7", Digits);
    assert "1" + "." + "7" == "1.7";
  }

  /** "1.7rc2": a pre-release that starts with a letter needs no '-'. */
  lemma LetterPreReleaseExample(n: string, head: string)
    requires n == "1.7" && head == "rc2"
    ensures MatchVersion(n + head) == Some(Match(n, head, ""))
    ensures Parse(n + head).Success? && Parse(n + head).value.preRelease == head
  {
    OneSeven();
    DotFieldsOne(head, RelaxedIdent);
    ParsePreRelease(n, head);
  }

  /** "1.0": two number fields. */
  lemma OneZero()
    ensures DotFields("1.0", Digits) && Split("1.0", ".") == ["1", "0"]
  {
    SplitNoDot("0");
    SplitAtDot("1", "0");
    DotFieldsOne("0", Digits);
    DotFieldsCons("1", "0", Digits);
    assert "1" + "." + "0" == "1.0";
  }

  /** "1.0-": a lone '-' is itself the pre-release. */
  lemma DashPreReleaseExample(n: string, head: string)
    requires n == "1.0" && head == "-"
    ensures MatchVersion(n + head) == Some(Match(n, head, ""))
    ensures Parse(n + head).Success? && Parse(n + head).value.preRelease == head
  {
    OneZero();
    SplitEmpty(".");
    DotFieldsOne(head, RelaxedIdent);
    ParsePreRelease(n, head);
  }
  /** NewVersion: appends one Uint64 segment per number field, failing on the first overflow. */
  method NewVersion(s: string) returns (r: Result<Version, ParseError>)
    ensures r == Parse(s)
  {
    var m := MatchVersion(s);
    if m.None? {
      return Failure(Malformed(s));
    }
    var fields := Split(m.value.numbers, ".");
    var segments: seq<Part> := [];
    for i := 0 to |fields|
      invariant CollectAll(fields[..i], NewUint64) == Success(segments)
    {
      var val := NewUint64(fields[i]);
      if val.Failure? {
        CollectAllFirstFailure(fields, NewUint64, i);
        return Failure(BadSegment(val.error));
      }
      CollectAllSnoc(fields, NewUint64, i, segments);
      segments := segments + [val.value];
    }
    assert fields[..|fields|] == fields;
    return Success(Version(segments, m.value.build, m.value.preRelease, s));
  }

  // ---------------------------------------------------------------------
  // String
  // ---------------------------------------------------------------------

  /**
   * One segment through fmt's %d verb: a number in decimal; a String
   * segment, which %d cannot format, as fmt's bad-verb text.
   */
  function Render(p: Part): (r: string)
    requires Plain(p)
    ensures p.Uint64? ==> r == Dec(p.u) && Canonical(r)
    ensures p.Str? ==> '%' in r
  {
    if p.Uint64? then Dec(p.u) else "%!d(part.String=" + p.s + ")"
  }

  function Rendered(segments: seq<Part>): (r: seq<string>)
    requires AllPlain(segments)
    ensures |r| == |segments|
    ensures forall i | 0 <= i < |segments| :: r[i] == Render(segments[i])
  {
    seq(|segments|, i requires 0 <= i < |segments| => Render(segments[i]))
  }

  /** The number part of String: the rendered segments joined by '.'. */
  function Numbers(segments: seq<Part>): string
    requires |segments| >= 1 && AllPlain(segments)
  {
    Join(Rendered(segments), ".")
  }

  /** String needs a first segment to print, as the source does. */
  predicate Printable(v: Version) {
    |v.segments| >= 1 && AllPlain(v.segments)
  }

  function String(v: Version): string
    requires Printable(v)
  {
    Numbers(v.segments)
      + (if v.preRelease != "" then "-" + v.preRelease else "")
      + (if v.buildMetadata != "" then "+" + v.buildMetadata else "")
  }

  /** One more segment adds a dot and its rendering. */
  lemma NumbersSnoc(segments: seq<Part>, i: nat)
    requires 1 <= i < |segments| && AllPlain(segments)
    ensures AllPlain(segments[..i]) && AllPlain(segments[..i + 1])
    ensures Numbers(segments[..i + 1]) == Numbers(segments[..i]) + "." + Render(segments[i])
  {
    assert segments[..i + 1] == segments[..i] + [segments[i]];
    assert Rendered(segments[..i + 1]) == Rendered(segments[..i]) + [Render(segments[i])];
    JoinSnoc(Rendered(segments[..i]), Render(segments[i]), ".");
  }

  /** String: the first segment, then ".%d" for each further one, then -pre and +build. */
  method StringOf(v: Version) returns (s: string)
    requires Printable(v)
    ensures s == String(v)
  {
    s := NumbersOf(v.segments);
    if v.preRelease != "" {
      s := s + ("-" + v.preRelease);
    }
    if v.buildMetadata != "" {
      s := s + ("+" + v.buildMetadata);
    }
  }

  /** The segments joined by dots, one at a time, as the loop at the head of String does. */
  method NumbersOf(segments: seq<Part>) returns (s: string)
    requires |segments| >= 1 && AllPlain(segments)
    ensures s == Numbers(segments)
  {
    s := Render(segments[0]);
    for i := 1 to |segments|
      invariant s == Numbers(segments[..i])
    {
      NumbersSnoc(segments, i);
      s := s + "." + Render(segments[i]);
    }
    assert segments[..|segments|] == segments;
  }

  function Original(v: Version): (r: string)
    ensures r == v.original
  {
    v.original
  }

  /** The number part of a rendered numeric version: its fields and its characters. */
  lemma RenderedNumbers(segments: seq<Part>)
    requires |segments| >= 1 && forall i | 0 <= i < |segments| :: segments[i].Uint64?
    ensures AllPlain(segments)
    ensures Split(Numbers(segments), ".") == Rendered(segments)
    ensures AllIn(Numbers(segments), Numeric) && IsDigit(Numbers(segments)[0])
  {
    var xs := Rendered(segments);
    forall i | 0 <= i < |xs|
      ensures '.' !in xs[i] && AllIn(xs[i], Numeric) && xs[i] != []
    {
      DecLacks(segments[i].u, '.');
    }
    SplitJoin(xs, '.');
    JoinAllIn(xs, ".", Numeric);
    if |xs| > 1 {
      JoinCons(xs[0], xs[1..], ".");
      assert xs == [xs[0]] + xs[1..];
    }
    assert Numbers(segments)[0] == xs[0][0];
  }

  /** The run of digits and dots stops where a text that cannot continue it begins. */
  lemma MatchNumbers(n: string, tail: string)
    requires n != [] && IsDigit(n[0]) && AllIn(n, Numeric)
    requires tail == [] || !InClass(tail[0], Numeric)
    ensures MatchVersion(n + tail) == MatchRest(n, tail)
  {
    var s := n + tail;
    assert s[0] == n[0];
    RunEndConcat(n, tail, Numeric);
    assert s[..|n|] == n && s[|n|..] == tail;
  }

  /** The rest of a rendering splits into its pre-release and build. */
  lemma MatchRestPieces(n: string, pre: string, build: string)
    requires DotFields(n, Digits)
    requires pre == "" || DotFields(pre, RelaxedIdent)
    requires build == "" || DotFields(build, RelaxedIdent)
    ensures MatchRest(n, (if pre != "" then "-" + pre else "") + (if build != "" then "+" + build else ""))
         == Some(Match(n, pre, build))
  {
    var head := if pre != "" then "-" + pre else "";
    assert PreReleaseOf(head) == Some(pre) by {
      if pre != "" {
        assert head[1..] == pre;
      }
    }
    if pre != "" {
      DotFieldsLack(pre, RelaxedIdent, '+');
    }
    assert '+' !in head;
    CutRenderedAt(head, '+', build);
  }

  /** The grammar splits numbers, a pre-release and a build back into its captures. */
  lemma MatchPieces(n: string, pre: string, build: string)
    requires n != [] && IsDigit(n[0]) && AllIn(n, Numeric) && DotFields(n, Digits)
    requires pre == "" || DotFields(pre, RelaxedIdent)
    requires build == "" || DotFields(build, RelaxedIdent)
    ensures MatchVersion(n + (if pre != "" then "-" + pre else "") + (if build != "" then "+" + build else ""))
         == Some(Match(n, pre, build))
  {
    var tail := (if pre != "" then "-" + pre else "") + (if build != "" then "+" + build else "");
    assert n + (if pre != "" then "-" + pre else "") + (if build != "" then "+" + build else "") == n + tail;
    assert tail != [] ==> tail[0] == '-' || tail[0] == '+';
    MatchNumbers(n, tail);
    MatchRestPieces(n, pre, build);
  }

  /** The grammar recognises the rendering of a well-formed version, piece by piece. */
  lemma MatchRendered(v: Version)
    requires WellFormed(v)
    ensures Printable(v)
    ensures MatchVersion(String(v)) == Some(Match(Numbers(v.segments), v.preRelease, v.buildMetadata))
  {
    RenderedNumbers(v.segments);
    MatchPieces(Numbers(v.segments), v.preRelease, v.buildMetadata);
  }

  /** Parsing the rendering of a well-formed version gives the version back. */
  lemma StringThenParse(v: Version)
    requires WellFormed(v)
    ensures Printable(v)
    ensures Parse(String(v)) == Success(v.(original := String(v)))
  {
    MatchRendered(v);
    RenderedNumbers(v.segments);
    var s := String(v);
    var fs := Rendered(v.segments);
    assert Split(MatchVersion(s).value.numbers, ".") == fs;
    forall i | 0 <= i < |fs|
      ensures NewUint64(fs[i]) == Success(v.segments[i])
    {
      DecValue(fs[i]);
    }
    CollectAllSuccess(fs, NewUint64);
    var r := CollectAll(fs, NewUint64);
    assert r.Success? && r.value == v.segments;
  }

  /** Two well-formed versions with the same rendering agree in everything but the original text. */
  lemma StringInjective(v: Version, o: Version)
    requires WellFormed(v) && WellFormed(o)
    ensures Printable(v) && Printable(o)
    ensures String(v) == String(o) ==> v.(original := "") == o.(original := "")
  {
    StringThenParse(v);
    StringThenParse(o);
  }

  /** The rendering is canonical: rendering a parsed rendering changes nothing. */
  lemma StringStable(s: string)
    requires Parse(s).Success?
    ensures Printable(Parse(s).value)
    ensures var t := String(Parse(s).value);
      Parse(t).Success? && Printable(Parse(t).value) && String(Parse(t).value) == t
  {
    ParsedWellFormed(s);
    StringThenParse(Parse(s).value);
    ParsedWellFormed(String(Parse(s).value));
  }

  // ---------------------------------------------------------------------
  // Compare
  // ---------------------------------------------------------------------

  lemma NormalizedPlain(ps: seq<Part>)
    requires AllPlain(ps)
    ensures AllShown(ps) && AllPlain(Normalized(ps))
  {
    var r := Normalized(ps);
    assert forall j | 0 <= j < |r| :: r[j] == ps[j];
  }

  /**
   * The comparison after the fast path: normalised segments with Uint64(0)
   * padding, then the pre-releases.
   */
  function Order(v: Version, o: Version): (r: int)
    requires AllPlain(v.segments) && AllPlain(o.segments)
    ensures -1 <= r <= 1
  {
    NormalizedPlain(v.segments);
    NormalizedPlain(o.segments);
    var p1, p2 := Normalized(v.segments), Normalized(o.segments);
    PlainSafe(p1, p2, Some(Uint64(0)), 0);
    var res := CompareParts(p1, Some(p2), Some(Uint64(0)));
    if res != 0 then res else PreRelease.Compare(v.preRelease, o.preRelease)
  }

  /** Version.Compare: equal renderings are equal, otherwise Order decides. */
  function Compare(v: Version, o: Version): (r: int)
    requires Printable(v) && Printable(o)
    ensures -1 <= r <= 1
  {
    if String(v) == String(o) then 0 else Order(v, o)
  }

  /** Compare is never below zero when Order is not. */
  lemma NotLessByOrder(v: Version, o: Version)
    requires Printable(v) && Printable(o) && Order(v, o) >= 0
    ensures Compare(v, o) >= 0
  {
  }

  lemma OrderAntisymmetric(v: Version, o: Version)
    requires AllPlain(v.segments) && AllPlain(o.segments)
    ensures Order(v, o) == -Order(o, v)
  {
    NormalizedPlain(v.segments);
    NormalizedPlain(o.segments);
    ComparePartsAntisymmetric(Normalized(v.segments), Normalized(o.segments), Some(Uint64(0)));
    PreRelease.CompareAntisymmetric(v.preRelease, o.preRelease);
  }

  lemma OrderTransitive(a: Version, b: Version, c: Version)
    requires AllPlain(a.segments) && AllPlain(b.segments) && AllPlain(c.segments)
    requires Order(a, b) <= 0 && Order(b, c) <= 0
    ensures Order(a, c) <= 0
  {
    NormalizedPlain(a.segments);
    NormalizedPlain(b.segments);
    NormalizedPlain(c.segments);
    var pa, pb, pc := Normalized(a.segments), Normalized(b.segments), Normalized(c.segments);
    var pad := Some(Uint64(0));
    PlainSafe(pa, pb, pad, 0);
    PlainSafe(pb, pc, pad, 0);
    PlainSafe(pa, pc, pad, 0);
    var ab, bc := CompareParts(pa, Some(pb), pad), CompareParts(pb, Some(pc), pad);
    ComparePartsTransitive(pa, pb, pc, pad);
    ComparePartsAntisymmetric(pa, pb, pad);
    ComparePartsAntisymmetric(pb, pc, pad);
    ComparePartsAntisymmetric(pa, pc, pad);
    if ab == 0 && bc == 0 {
      PreRelease.CompareTransitive(a.preRelease, b.preRelease, c.preRelease);
    } else if CompareParts(pa, Some(pc), pad) == 0 {
      if bc == 0 {
        ComparePartsTransitive(pb, pc, pa, pad);
      } else {
        ComparePartsTransitive(pc, pa, pb, pad);
      }
    }
  }

  /** Swapping the operands negates the result. */
  lemma CompareAntisymmetric(v: Version, o: Version)
    requires Printable(v) && Printable(o)
    ensures Compare(v, o) == -Compare(o, v)
  {
    OrderAntisymmetric(v, o);
  }

  /** Equal renderings also tie under Order, so the fast path agrees with it. */
  lemma FastPathAgrees(v: Version, o: Version)
    requires WellFormed(v) && WellFormed(o)
    ensures Printable(v) && Printable(o)
    ensures Compare(v, o) == Order(v, o)
  {
    StringInjective(v, o);
    if String(v) == String(o) {
      NormalizedPlain(v.segments);
      PreRelease.CompareZero(v.preRelease, o.preRelease);
    }
  }

  /** "At most" is transitive on parsed versions, so Compare is a total preorder. */
  lemma CompareTransitive(a: Version, b: Version, c: Version)
    requires WellFormed(a) && WellFormed(b) && WellFormed(c)
    requires Compare(a, b) <= 0 && Compare(b, c) <= 0
    ensures Compare(a, c) <= 0
  {
    FastPathAgrees(a, b);
    FastPathAgrees(b, c);
    FastPathAgrees(a, c);
    OrderTransitive(a, b, c);
  }

  /**
   * Trailing zero segments and build metadata never matter: "1.2" equals
   * "1.2.0.0", and "1.2+foo" equals "1.2+beta".
   */
  lemma ZerosAndBuildIgnored(v: Version, zeros: seq<Part>, build: string, original: string)
    requires Printable(v)
    requires forall j | 0 <= j < |zeros| :: zeros[j] == Uint64(0)
    ensures var w := v.(segments := v.segments + zeros, buildMetadata := build, original := original);
      Printable(w) && Compare(v, w) == 0
  {
    NormalizedPlain(v.segments);
    NormalizedAppendNulls(v.segments, zeros);
    PreRelease.CompareZero(v.preRelease, v.preRelease);
  }

  lemma Regroup(a: seq<Part>, b: seq<Part>, c: seq<Part>, d: seq<Part>)
    ensures a + b + c + d == a + (b + c) + d
  {
  }

  /** A numeric version is its normal form followed by zero segments. */
  lemma NullTail(segments: seq<Part>)
    requires forall j | 0 <= j < |segments| :: segments[j].Uint64?
    ensures AllShown(segments)
    ensures var p := Normalized(segments);
      && AllPlain(p)
      && segments == p + segments[|p|..]
      && forall j | 0 <= j < |segments| - |p| :: segments[|p|..][j] == Uint64(0)
  {
    NormalizedPlain(segments);
    var p := Normalized(segments);
    assert forall j | |p| <= j < |segments| :: IsNull(segments[j]);
  }

  /** Zeros after zeros are zeros. */
  lemma ZerosConcat(a: seq<Part>, b: seq<Part>)
    requires forall j | 0 <= j < |a| :: a[j] == Uint64(0)
    requires forall j | 0 <= j < |b| :: b[j] == Uint64(0)
    ensures forall j | 0 <= j < |a + b| :: (a + b)[j] == Uint64(0)
  {
  }

  /** A sequence ending in a shown non-null segment is its own normal form. */
  lemma NormalizedLastShown(q: seq<Part>)
    requires AllShown(q) && q != [] && !IsNull(q[|q| - 1])
    ensures Normalized(q) == q
  {
  }

  /** The segment comparison behind SignificantTail. */
  lemma TailOutranks(segments: seq<Part>, zeros: seq<Part>, u: u64)
    requires forall j | 0 <= j < |segments| :: segments[j].Uint64?
    requires forall j | 0 <= j < |zeros| :: zeros[j] == Uint64(0)
    requires u != 0
    ensures var q := segments + zeros + [Uint64(u)];
      && AllPlain(q) && AllPlain(segments)
      && Normalized(q) == q
      && CompareSafe(q, Some(Normalized(segments)), Some(Uint64(0)))
      && CompareParts(q, Some(Normalized(segments)), Some(Uint64(0))) == 1
  {
    var q := segments + zeros + [Uint64(u)];
    assert AllPlain(q) by {
      assert forall j | 0 <= j < |q| :: q[j].Uint64?;
    }
    NormalizedLastShown(q);
    NormalizedPlain(segments);
    var p := Normalized(segments);
    var rest := segments[|p|..] + zeros;
    assert AllPlain(p) && q == p + rest + [Uint64(u)] && forall j | 0 <= j < |rest| :: rest[j] == Uint64(0) by {
      NullTail(segments);
      ZerosConcat(segments[|p|..], zeros);
      Regroup(p, segments[|p|..], zeros, [Uint64(u)]);
    }
    PaddedTailGreater(p, rest, u);
  }

  /** A non-zero segment after any zeros outranks the shorter version: "1.2.0.0.1" is above "1.2". */
  lemma SignificantTail(v: Version, zeros: seq<Part>, u: u64)
    requires WellFormed(v) && u != 0
    requires forall j | 0 <= j < |zeros| :: zeros[j] == Uint64(0)
    ensures var w := v.(segments := v.segments + zeros + [Uint64(u)]);
      WellFormed(w) && Compare(w, v) == 1
  {
    var w := v.(segments := v.segments + zeros + [Uint64(u)]);
    assert WellFormed(w);
    FastPathAgrees(w, v);
    TailOutranks(v.segments, zeros, u);
  }

  /**
   * When the segments tie, a pre-release ranks below the release:
   * "1.2-beta" is below "1.2", and "1.7rc2" below "1.7".
   */
  lemma PreReleaseBelowRelease(v: Version, pre: string)
    requires WellFormed(v) && v.preRelease == "" && pre != "" && DotFields(pre, RelaxedIdent)
    ensures var w := v.(preRelease := pre);
      WellFormed(w) && Compare(w, v) == -1
  {
    var w := v.(preRelease := pre);
    FastPathAgrees(w, v);
    NormalizedPlain(v.segments);
  }

  /** On numeric segments Order needs no normalisation: zero padding alone decides, then the pre-releases. */
  lemma OrderNumeric(v: Version, o: Version)
    requires AllNumeric(v.segments) && AllNumeric(o.segments)
    ensures AllPlain(v.segments) && AllPlain(o.segments)
    ensures CompareSafe(v.segments, Some(o.segments), Some(Uint64(0)))
    ensures Order(v, o) ==
      var res := CompareParts(v.segments, Some(o.segments), Some(Uint64(0)));
      if res != 0 then res else PreRelease.Compare(v.preRelease, o.preRelease)
  {
    NormalizedZeroOrder(v.segments, o.segments);
  }

  function Equal(v: Version, o: Version): (r: bool)
    requires Printable(v) && Printable(o)
    ensures r <==> !LessThan(v, o) && !GreaterThan(v, o)
  {
    Compare(v, o) == 0
  }

  function GreaterThan(v: Version, o: Version): (r: bool)
    requires Printable(v) && Printable(o)
    ensures r <==> Compare(o, v) < 0
  {
    CompareAntisymmetric(v, o);
    Compare(v, o) > 0
  }

  function GreaterThanOrEqual(v: Version, o: Version): (r: bool)
    requires Printable(v) && Printable(o)
    ensures r <==> !LessThan(v, o)
  {
    Compare(v, o) >= 0
  }

  function LessThan(v: Version, o: Version): (r: bool)
    requires Printable(v) && Printable(o)
    ensures r <==> GreaterThan(o, v)
  {
    Compare(v, o) < 0
  }

  function LessThanOrEqual(v: Version, o: Version): (r: bool)
    requires Printable(v) && Printable(o)
    ensures r <==> !GreaterThan(v, o)
  {
    Compare(v, o) <= 0
  }
}
