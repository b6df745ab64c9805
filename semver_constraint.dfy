/**
 * Constraints over strict versions (package semver, constraint.go): an OR
 * of AND-groups of clauses, each clause an operator and a possibly
 * wildcarded version.  Every operator sits behind the pre-release gate, and
 * two options, includePreRelease and zeroPadding, change how operators
 * treat pre-releases and wildcards.
 */
module SemVerConstraint {
  import opened Wrappers
  import opened Text
  import opened Decimal
  import opened Results
  import opened SemVer
  import PreRelease

  /** The two options a constraint set is evaluated under. */
  datatype Conf = Conf(includePreRelease: bool, zeroPadding: bool)

  datatype Op = Eq | Ne | Gt | Lt | Ge | Le | Tilde | Caret

  datatype Constraint = Constraint(version: Version, op: Op)

  /** OR over the outer sequence, AND over each inner one. */
  datatype Constraints = Constraints(groups: seq<seq<Constraint>>, conf: Conf)

  datatype ConstraintError =
    | Improper(clause: string)                 // the clause is outside the constraint grammar
    | BadVersion(ver: string, err: ParseError) // the rewritten operand is not a strict version

  /** The operator table: "==", "~>" and any other spelling are absent. */
  function OpOf(tok: string): (r: Option<Op>)
    ensures r.Some? <==> tok in {"", "=", "!=", ">", "<", ">=", "=>", "<=", "=<", "~", "^"}
    ensures r == Some(Eq) <==> tok == "" || tok == "="
    ensures r == Some(Ge) <==> tok == ">=" || tok == "=>"
    ensures r == Some(Le) <==> tok == "<=" || tok == "=<"
  {
    if tok == "" || tok == "=" then Some(Eq)
    else if tok == "!=" then Some(Ne)
    else if tok == ">" then Some(Gt)
    else if tok == "<" then Some(Lt)
    else if tok == ">=" || tok == "=>" then Some(Ge)
    else if tok == "<=" || tok == "=<" then Some(Le)
    else if tok == "~" then Some(Tilde)
    else if tok == "^" then Some(Caret)
    else None
  }

  predicate IsX(x: string) {
    x == "x" || x == "*" || x == "X"
  }

  // ---------------------------------------------------------------------
  // The clause grammar: \s* operator \s* cv \s*
  // ---------------------------------------------------------------------

  /**
   * The submatches of one clause: the operator, the whole operand, its
   * three number fields ("" when absent) and the pre-release with its
   * leading '-' ("" when absent).
   */
  datatype Clause = Clause(op: string, ver: string, major: string, minor: string, patch: string, preRelease: string)

  /** The operand: an optional 'v', one to three wildcard fields, then -pre and +build. */
  function MatchOperand(cv: string): (r: Option<(string, string, string, string)>)
    ensures r.Some? ==> r.value.0 != "" && AllIn(r.value.0, Wild)
    ensures r.Some? ==> r.value.3 == "" || r.value.3[0] == '-'
    ensures r.Some? ==> AllIn(r.value.1, Wild) && AllIn(r.value.2, Wild)
    ensures r.Some? && r.value.3 != "" ==> DotFields(r.value.3[1..], Ident)
  {
    var body := if |cv| > 0 && cv[0] == 'v' then cv[1..] else cv;
    var p := Cut(body);
    var fs := Split(p.core, ".");
    if |fs| <= 3 && DotFields(p.core, Wild)
       && (p.pre.Some? ==> DotFields(p.pre.value, Ident))
       && (p.build.Some? ==> DotFields(p.build.value, Ident))
    then
      Some((fs[0], if |fs| > 1 then fs[1] else "", if |fs| > 2 then fs[2] else "",
            if p.pre.Some? then "-" + p.pre.value else ""))
    else None
  }

  /**
   * The anchored clause expression.  The operator is the whole run of
   * operator characters, because the operand can start with none of them,
   * and the run must be a key of the operator table.
   */
  function MatchClause(c: string): (r: Option<Clause>)
    ensures r.Some? ==> OpOf(r.value.op).Some? && Fields(r.value)
  {
    var i := SkipSpace(c, 0);
    var j := RunEnd(c, i, Operator);
    var k := SkipSpace(c, j);
    var op := c[i..j];
    var cv := TrimRightSpace(c[k..]);
    if OpOf(op).None? then None
    else
      match MatchOperand(cv)
      case None => None
      case Some((major, minor, patch, pre)) => Some(Clause(op, cv, major, minor, patch, pre))
  }

  /** The number fields hold wildcard characters only; the pre-release is '-' and identifiers. */
  predicate Fields(m: Clause) {
    && AllIn(m.major, Wild) && AllIn(m.minor, Wild) && AllIn(m.patch, Wild)
    && DashedPre(m.preRelease)
  }

  /** The operand of the empty clause: the zero version with majorX set. */
  const AnyVersion: Version := Version(0, 0, 0, "", "", true, false, false, "")

  /**
   * newConstraint: "" means "= *"; otherwise the clause must match, and a
   * wildcard or missing field turns the operand into x.0.0 or x.y.0 with
   * the matching flag before it is parsed as a strict version.
   */
  function NewConstraint(c: string): (r: Result<Constraint, ConstraintError>)
    ensures c == "" ==> r == Success(Constraint(AnyVersion, Eq))
    ensures c != "" && MatchClause(c).None? ==> r == Failure(Improper(c))
    ensures r.Success? && c != "" ==> r.value.op == OpOf(MatchClause(c).value.op).value
  {
    if c == "" then Success(Constraint(AnyVersion, Eq))
    else
      match MatchClause(c)
      case None => Failure(Improper(c))
      case Some(m) =>
        var (ver, mx, nx, px) := Rewrite(m);
        match NewVersion(ver)
        case Failure(e) => Failure(BadVersion(ver, e))
        case Success(v) => Success(Constraint(v.(majorX := mx, minorX := nx, patchX := px), OpOf(m.op).value))
  }

  /** The wildcard rewrite: the text to parse and the three flags. */
  function Rewrite(m: Clause): (string, bool, bool, bool) {
    if IsX(m.major) || m.major == "" then ("0.0.0", true, false, false)
    else if IsX(m.minor) || m.minor == "" then (m.major + ".0.0" + m.preRelease, false, true, false)
    else if IsX(m.patch) || m.patch == "" then (m.major + "." + m.minor + ".0" + m.preRelease, false, false, true)
    else (m.ver, false, false, false)
  }

  // ---------------------------------------------------------------------
  // What a clause's operand becomes
  // ---------------------------------------------------------------------

  /** The pre-release submatch without its leading '-'. */
  function Dashless(pre: string): string {
    if pre == "" then "" else pre[1..]
  }

  /** Wildcard-class text holds none of the characters that split a version. */
  lemma WildLacks(s: string)
    requires AllIn(s, Wild)
    ensures '.' !in s && '+' !in s && '-' !in s
  {
    forall i | 0 <= i < |s|
      ensures s[i] != '.' && s[i] != '+' && s[i] != '-'
    {
      assert InClass(s[i], Wild);
    }
  }

  /** The pre-release submatch: empty, or '-' and dot-separated identifiers. */
  predicate DashedPre(d: string) {
    d != "" ==> d[0] == '-' && DotFields(d[1..], Ident)
  }

  /** Three wildcard-class fields and a pre-release submatch cut back into those pieces. */
  lemma ThreeFields(a: string, b: string, c: string, d: string)
    requires AllIn(a, Wild) && AllIn(b, Wild) && AllIn(c, Wild) && DashedPre(d)
    ensures var s := a + "." + b + "." + c + d;
      && Cut(s) == Pieces(a + "." + b + "." + c, if d != "" then Some(d[1..]) else None, None)
      && Split(Cut(s).core, ".") == [a, b, c]
  {
    WildLacks(a);
    WildLacks(b);
    WildLacks(c);
    var core := a + "." + b + "." + c;
    JoinThree(a, b, c);
    JoinLacks([a, b, c], ".", '+');
    JoinLacks([a, b, c], ".", '-');
    SplitJoin([a, b, c], '.');
    var pre := Dashless(d);
    if d != "" {
      PiecesNonEmpty(pre, Ident);
      DotFieldsLack(pre, Ident, '+');
      assert d == "-" + pre;
    }
    assert core + d == core + (if pre != "" then "-" + pre else "") + "";
    CutRendered(core, pre, "");
  }

  /** What NewVersion reads from three accepted fields and a pre-release. */
  lemma ParseFieldsValue(a: string, b: string, c: string, d: string)
    requires AllIn(a, Wild) && AllIn(b, Wild) && AllIn(c, Wild) && DashedPre(d)
    requires NewVersion(a + "." + b + "." + c + d).Success?
    ensures var s := a + "." + b + "." + c + d;
      && NumId(a) && NumId(b) && NumId(c)
      && Value(a) <= MaxUint64 && Value(b) <= MaxUint64 && Value(c) <= MaxUint64
      && NewVersion(s).value == Version(Value(a), Value(b), Value(c), Dashless(d), "", false, false, false, s)
  {
    ThreeFields(a, b, c, d);
    var s := a + "." + b + "." + c + d;
    var p := Cut(s);
    var fs := Split(p.core, ".");
    assert fs[0] == a && fs[1] == b && fs[2] == c;
    var v := NewVersion(s).value;
    assert v.major == Value(a) && v.minor == Value(b) && v.patch == Value(c);
    assert v.preRelease == Dashless(d);
    assert v.buildMetadata == "";
  }

  /**
   * Three fields, then a pre-release: NewVersion accepts the text exactly
   * when the fields are canonical numbers within 64 bits and the
   * pre-release is made of SemVer identifiers.
   */
  lemma ParseFieldsAccepts(a: string, b: string, c: string, d: string)
    requires AllIn(a, Wild) && AllIn(b, Wild) && AllIn(c, Wild) && DashedPre(d)
    ensures NewVersion(a + "." + b + "." + c + d).Success? <==>
      && NumId(a) && NumId(b) && NumId(c) && (d != "" ==> PreIds(d[1..]))
      && Value(a) <= MaxUint64 && Value(b) <= MaxUint64 && Value(c) <= MaxUint64
  {
    ThreeFieldsMatch(a, b, c, d);
    var s := a + "." + b + "." + c + d;
    var fs := Split(Cut(s).core, ".");
    assert fs[0] == a && fs[1] == b && fs[2] == c;
  }

  /** The grammar accepts three fields and a pre-release when each piece is well formed. */
  lemma ThreeFieldsMatch(a: string, b: string, c: string, d: string)
    requires AllIn(a, Wild) && AllIn(b, Wild) && AllIn(c, Wild) && DashedPre(d)
    ensures var s := a + "." + b + "." + c + d;
      && Split(Cut(s).core, ".") == [a, b, c]
      && (Matches(s) <==> NumId(a) && NumId(b) && NumId(c) && (d != "" ==> PreIds(d[1..])))
  {
    ThreeFields(a, b, c, d);
  }

  /** The field "0" that the rewrite fills in is a canonical zero. */
  lemma ZeroField()
    ensures AllIn("0", Wild) && Canonical("0") && Value("0") == 0
  {
    var z := "0";
    assert z[..|z| - 1] == [];
    assert Value(z) == Value([]) * 10 + DigitValue('0');
  }

  /** The text the rewrite writes for a missing major field. */
  lemma ZeroText()
    ensures "0" + "." + "0" + "." + "0" + "" == "0.0.0"
  {
    var t := "0" + "." + "0" + "." + "0" + "";
    assert |t| == 5;
    assert t[0] == '0' && t[1] == '.' && t[2] == '0' && t[3] == '.' && t[4] == '0';
  }

  /** The text the rewrite writes for a missing minor field. */
  lemma MinorFill(major: string, d: string)
    ensures major + ".0.0" + d == major + "." + "0" + "." + "0" + d
  {
    assert ".0.0" == "." + "0" + "." + "0";
  }

  /** The text the rewrite writes for a missing patch field. */
  lemma PatchFill(major: string, minor: string, d: string)
    ensures major + "." + minor + ".0" + d == major + "." + minor + "." + "0" + d
  {
    assert ".0" == "." + "0";
  }

  /** The operand a missing or wildcard minor field stands for: major.0.0, the pre-release, minorX. */
  function MinorXVersion(m: Clause): Version
    requires NumId(m.major) && Value(m.major) <= MaxUint64
  {
    Version(Value(m.major), 0, 0, Dashless(m.preRelease), "", false, true, false, m.major + ".0.0" + m.preRelease)
  }

  /** The operand a missing or wildcard patch field stands for: major.minor.0, the pre-release, patchX. */
  function PatchXVersion(m: Clause): Version
    requires NumId(m.major) && NumId(m.minor) && Value(m.major) <= MaxUint64 && Value(m.minor) <= MaxUint64
  {
    Version(Value(m.major), Value(m.minor), 0, Dashless(m.preRelease), "", false, false, true,
            m.major + "." + m.minor + ".0" + m.preRelease)
  }

  /** An "x", "*", "X" or missing major field: the operand is 0.0.0 with majorX. */
  lemma OperandMajorX(c: string, m: Clause)
    requires c != "" && MatchClause(c) == Some(m)
    requires IsX(m.major) || m.major == ""
    ensures OpOf(m.op).Some?
    ensures NewConstraint(c) == Success(Constraint(Version(0, 0, 0, "", "", true, false, false, "0.0.0"), OpOf(m.op).value))
  {
    ZeroField();
    ZeroText();
    ParseFieldsAccepts("0", "0", "0", "");
    ParseFieldsValue("0", "0", "0", "");
  }

  /**
   * A missing or wildcard minor field: the operand is major.0.0 with the
   * clause's pre-release and minorX, parsed if the major field is a
   * number and the pre-release is well formed.
   */
  lemma OperandMinorX(c: string, m: Clause)
    requires c != "" && MatchClause(c) == Some(m)
    requires !(IsX(m.major) || m.major == "") && (IsX(m.minor) || m.minor == "")
    ensures NewConstraint(c).Success? <==>
      NumId(m.major) && Value(m.major) <= MaxUint64 && (m.preRelease != "" ==> PreIds(Dashless(m.preRelease)))
    ensures NewConstraint(c).Success? ==>
      NumId(m.major) && Value(m.major) <= MaxUint64 && OpOf(m.op).Some? &&
      NewConstraint(c).value == Constraint(MinorXVersion(m), OpOf(m.op).value)
  {
    var ver := m.major + ".0.0" + m.preRelease;
    assert Rewrite(m) == (ver, false, true, false);
    ZeroField();
    MinorFill(m.major, m.preRelease);
    ParseFieldsAccepts(m.major, "0", "0", m.preRelease);
    if NewConstraint(c).Success? {
      ParseFieldsValue(m.major, "0", "0", m.preRelease);
    }
  }

  /**
   * A missing or wildcard patch field: the operand is major.minor.0 with
   * the clause's pre-release and patchX.
   */
  lemma OperandPatchX(c: string, m: Clause)
    requires c != "" && MatchClause(c) == Some(m)
    requires !(IsX(m.major) || m.major == "") && !(IsX(m.minor) || m.minor == "") && (IsX(m.patch) || m.patch == "")
    ensures NewConstraint(c).Success? <==>
      NumId(m.major) && NumId(m.minor) && Value(m.major) <= MaxUint64 && Value(m.minor) <= MaxUint64
      && (m.preRelease != "" ==> PreIds(Dashless(m.preRelease)))
    ensures NewConstraint(c).Success? ==>
      NumId(m.major) && NumId(m.minor) && Value(m.major) <= MaxUint64 && Value(m.minor) <= MaxUint64 && OpOf(m.op).Some? &&
      NewConstraint(c).value == Constraint(PatchXVersion(m), OpOf(m.op).value)
  {
    var ver := m.major + "." + m.minor + ".0" + m.preRelease;
    assert Rewrite(m) == (ver, false, false, true);
    ZeroField();
    PatchFill(m.major, m.minor, m.preRelease);
    ParseFieldsAccepts(m.major, m.minor, "0", m.preRelease);
    if NewConstraint(c).Success? {
      ParseFieldsValue(m.major, m.minor, "0", m.preRelease);
    }
  }

  /** Three given fields: the whole operand is parsed as written, with no flag set. */
  lemma OperandFull(c: string, m: Clause)
    requires c != "" && MatchClause(c) == Some(m)
    requires !(IsX(m.major) || m.major == "") && !(IsX(m.minor) || m.minor == "") && !(IsX(m.patch) || m.patch == "")
    ensures NewConstraint(c).Success? <==> NewVersion(m.ver).Success?
    ensures NewConstraint(c).Success? ==>
      OpOf(m.op).Some? && NewConstraint(c).value == Constraint(NewVersion(m.ver).value, OpOf(m.op).value)
    ensures NewConstraint(c).Failure? ==> NewConstraint(c).error == BadVersion(m.ver, NewVersion(m.ver).error)
  {
  }

  /** One AND-group: the clauses between commas, each through NewConstraint. */
  function ParseGroup(g: string): Result<seq<Constraint>, ConstraintError> {
    CollectAll(Split(g, ","), NewConstraint)
  }

  /**
   * NewConstraints: split on "||", then on ",", with no trimming; the first
   * clause that fails decides the error.
   */
  function ParseConstraints(s: string, conf: Conf): Result<Constraints, ConstraintError> {
    match CollectAll(Split(s, "||"), ParseGroup)
    case Failure(e) => Failure(e)
    case Success(css) => Success(Constraints(css, conf))
  }

  /** Every clause of the AND-group g is inside the grammar. */
  predicate GroupParses(g: string) {
    forall j | 0 <= j < |Split(g, ",")| :: NewConstraint(Split(g, ",")[j]).Success?
  }

  /** Every clause of every group of s is inside the grammar. */
  predicate AllParse(s: string) {
    forall i | 0 <= i < |Split(s, "||")| :: GroupParses(Split(s, "||")[i])
  }

  /** A group parses exactly when each of its clauses does, into one constraint per clause. */
  lemma ParseGroupShape(g: string)
    ensures ParseGroup(g).Success? <==> GroupParses(g)
    ensures ParseGroup(g).Success? ==> |ParseGroup(g).value| == |Split(g, ",")|
  {
    assert ParseGroup(g) == CollectAll(Split(g, ","), NewConstraint);
    CollectAllSuccess(Split(g, ","), NewConstraint);
  }

  /**
   * A constraint text parses exactly when every clause of every group
   * does, and then it keeps the configuration and one group per "||" piece.
   */
  lemma ParseConstraintsShape(s: string, conf: Conf)
    ensures ParseConstraints(s, conf).Success? <==> AllParse(s)
    ensures ParseConstraints(s, conf).Success? ==>
      ParseConstraints(s, conf).value.conf == conf &&
      |ParseConstraints(s, conf).value.groups| == |Split(s, "||")|
  {
    var gs := Split(s, "||");
    CollectAllSuccess(gs, ParseGroup);
    forall i | 0 <= i < |gs|
      ensures ParseGroup(gs[i]).Success? <==> GroupParses(gs[i])
    {
      ParseGroupShape(gs[i]);
    }
  }

  /** On success, group i holds the constraints parsed from the clauses of piece i. */
  lemma ParseConstraintsGroups(s: string, conf: Conf, i: nat)
    requires ParseConstraints(s, conf).Success? && i < |Split(s, "||")|
    ensures ParseGroup(Split(s, "||")[i]).Success?
    ensures ParseConstraints(s, conf).value.groups[i] == ParseGroup(Split(s, "||")[i]).value
  {
    CollectAllSuccess(Split(s, "||"), ParseGroup);
  }

  /** One clause outside the grammar makes the whole text fail to parse. */
  lemma ImproperClauseFails(s: string, conf: Conf, i: nat, j: nat)
    requires i < |Split(s, "||")| && j < |Split(Split(s, "||")[i], ",")|
    requires NewConstraint(Split(Split(s, "||")[i], ",")[j]).Failure?
    ensures ParseConstraints(s, conf).Failure?
  {
    ParseConstraintsShape(s, conf);
    assert !GroupParses(Split(s, "||")[i]);
  }

  method NewConstraints(s: string, conf: Conf) returns (r: Result<Constraints, ConstraintError>)
    ensures r == ParseConstraints(s, conf)
  {
    var groups := Split(s, "||");
    var css: seq<seq<Constraint>> := [];
    for i := 0 to |groups|
      invariant CollectAll(groups[..i], ParseGroup) == Success(css)
    {
      var cs := NewGroup(groups[i]);
      if cs.Failure? {
        GroupFailureDecides(s, conf, i);
        return Failure(cs.error);
      }
      CollectAllSnoc(groups, ParseGroup, i, css);
      css := css + [cs.value];
    }
    assert groups[..|groups|] == groups;
    return Success(Constraints(css, conf));
  }

  /** The first group that fails to parse decides the error of the whole text. */
  lemma GroupFailureDecides(s: string, conf: Conf, i: nat)
    requires i < |Split(s, "||")| && ParseGroup(Split(s, "||")[i]).Failure?
    requires CollectAll(Split(s, "||")[..i], ParseGroup).Success?
    ensures ParseConstraints(s, conf) == Failure(ParseGroup(Split(s, "||")[i]).error)
  {
    CollectAllFirstFailure(Split(s, "||"), ParseGroup, i);
  }

  /** The inner loop of NewConstraints: one AND-group, clause by clause. */
  method NewGroup(g: string) returns (r: Result<seq<Constraint>, ConstraintError>)
    ensures r == ParseGroup(g)
  {
    var clauses := Split(g, ",");
    var cs: seq<Constraint> := [];
    for j := 0 to |clauses|
      invariant CollectAll(clauses[..j], NewConstraint) == Success(cs)
    {
      var c := NewConstraint(clauses[j]);
      if c.Failure? {
        CollectAllFirstFailure(clauses, NewConstraint, j);
        return Failure(c.error);
      }
      CollectAllSnoc(clauses, NewConstraint, j, cs);
      cs := cs + [c.value];
    }
    assert clauses[..|clauses|] == clauses;
    return Success(cs);
  }

  // ---------------------------------------------------------------------
  // Operators
  // ---------------------------------------------------------------------

  function ConstraintTilde(v: Version, c: Version): bool {
    c.majorX || (GreaterThanOrEqual(v, c) && LessThan(v, TildeBump(c)))
  }

  function ConstraintCaret(v: Version, c: Version): bool {
    c.majorX || (GreaterThanOrEqual(v, c) && LessThan(v, CaretBump(c)))
  }

  function ConstraintEqual(v: Version, c: Version, conf: Conf): bool {
    if c.majorX then true
    else if !conf.zeroPadding && (c.minorX || c.patchX) then ConstraintTilde(v, c)
    else Equal(v, c)
  }

  function ConstraintNotEqual(v: Version, c: Version, conf: Conf): bool {
    if c.majorX then false
    else if !conf.zeroPadding && c.minorX then !ConstraintTilde(v, c)
    else if !conf.zeroPadding && c.patchX then !Equal(v.(patch := 0), c)
    else !Equal(v, c)
  }

  function ConstraintGreaterThan(v: Version, c: Version, conf: Conf): bool {
    if !conf.includePreRelease && v.preRelease != "" && c.preRelease == "" then false
    else if !conf.zeroPadding && (c.majorX || c.minorX || c.patchX) then GreaterThanOrEqual(v, TildeBump(c))
    else GreaterThan(v, c)
  }

  function ConstraintLessThan(v: Version, c: Version, conf: Conf): bool {
    if !conf.zeroPadding && c.minorX && v.major == c.major then false
    else if !conf.zeroPadding && c.patchX && v.major == c.major && v.minor == c.minor then false
    else LessThan(v, c)
  }

  function ConstraintGreaterThanEqual(v: Version, c: Version): bool {
    GreaterThanOrEqual(v, c)
  }

  function ConstraintLessThanEqual(v: Version, c: Version, conf: Conf): bool {
    if !conf.zeroPadding && (c.majorX || c.minorX || c.patchX) then LessThan(v, TildeBump(c))
    else LessThanOrEqual(v, c)
  }

  function Apply(op: Op, v: Version, c: Version, conf: Conf): bool {
    match op
    case Eq => ConstraintEqual(v, c, conf)
    case Ne => ConstraintNotEqual(v, c, conf)
    case Gt => ConstraintGreaterThan(v, c, conf)
    case Lt => ConstraintLessThan(v, c, conf)
    case Ge => ConstraintGreaterThanEqual(v, c)
    case Le => ConstraintLessThanEqual(v, c, conf)
    case Tilde => ConstraintTilde(v, c)
    case Caret => ConstraintCaret(v, c)
  }

  /** Whether the pre-release gate lets a candidate through to the operator. */
  predicate GateOpen(v: Version, c: Version, conf: Conf) {
    conf.includePreRelease || v.preRelease == "" || c.preRelease != ""
  }

  /** preReleaseCheck, which wraps every entry of the operator table. */
  function PreReleaseCheck(op: Op, v: Version, c: Version, conf: Conf): (r: bool)
    ensures !GateOpen(v, c, conf) ==> !r
    ensures GateOpen(v, c, conf) ==> r == Apply(op, v, c, conf)
  {
    if !conf.includePreRelease && v.preRelease != "" && c.preRelease == "" then false
    else Apply(op, v, c, conf)
  }

  /** constraint.check. */
  predicate Holds(k: Constraint, v: Version, conf: Conf) {
    PreReleaseCheck(k.op, v, k.version, conf)
  }

  predicate AllHold(group: seq<Constraint>, v: Version, conf: Conf) {
    forall j | 0 <= j < |group| :: Holds(group[j], v, conf)
  }

  /** andCheck: every clause of the group holds. */
  method AndCheck(v: Version, group: seq<Constraint>, conf: Conf) returns (b: bool)
    ensures b <==> AllHold(group, v, conf)
  {
    for j := 0 to |group|
      invariant forall i | 0 <= i < j :: Holds(group[i], v, conf)
    {
      if !PreReleaseCheck(group[j].op, v, group[j].version, conf) {
        return false;
      }
    }
    return true;
  }

  /** Check: some group has every clause holding. */
  method Check(cs: Constraints, v: Version) returns (b: bool)
    ensures b <==> exists i | 0 <= i < |cs.groups| :: AllHold(cs.groups[i], v, cs.conf)
  {
    for i := 0 to |cs.groups|
      invariant forall j | 0 <= j < i :: !AllHold(cs.groups[j], v, cs.conf)
    {
      var ok := AndCheck(v, cs.groups[i], cs.conf);
      if ok {
        return true;
      }
    }
    return false;
  }

  // ---------------------------------------------------------------------
  // What the operators mean
  // ---------------------------------------------------------------------

  /** The empty clause lets through every version the pre-release gate does. */
  lemma EmptyClauseMatchesAll(v: Version, conf: Conf)
    ensures NewConstraint("").Success?
    ensures Holds(NewConstraint("").value, v, conf) <==> conf.includePreRelease || v.preRelease == ""
  {
  }

  /**
   * A "*" operand: "=", "~" and "^" accept, "!=" rejects, and for a
   * release candidate ">*" is ">= 1.0.0", "<=*" is "< 1.0.0", "<*" never
   * holds and ">=*" always does.
   */
  lemma AnyOperand(v: Version, c: Version, conf: Conf)
    requires c.majorX && c.major == 0 && c.minor == 0 && c.patch == 0 && Release(c)
    requires !conf.zeroPadding && Release(v)
    ensures Apply(Eq, v, c, conf) && Apply(Tilde, v, c, conf) && Apply(Caret, v, c, conf)
    ensures !Apply(Ne, v, c, conf)
    ensures Apply(Gt, v, c, conf) <==> v.major >= 1
    ensures Apply(Le, v, c, conf) <==> v.major == 0
    ensures !Apply(Lt, v, c, conf) && Apply(Ge, v, c, conf)
  {
  }

  /**
   * A one- or two-field operand such as "1" or "1.2" as NewConstraint
   * leaves it: the missing fields zero, the flag of the first missing one
   * set, no pre-release, and room for the tilde bound.
   */
  predicate WildOperand(c: Version) {
    !c.majorX && c.patch == 0 && Release(c) &&
    ((c.minorX && !c.patchX && c.minor == 0 && c.major < MaxUint64) ||
     (!c.minorX && c.patchX && c.minor < MaxUint64))
  }

  /** v shares the fields the operand gives. */
  predicate InRange(v: Version, c: Version) {
    v.major == c.major && (c.minorX || v.minor == c.minor)
  }

  /** v lies above every version that shares the fields the operand gives. */
  predicate AboveRange(v: Version, c: Version) {
    v.major > c.major || (c.patchX && v.major == c.major && v.minor > c.minor)
  }

  /** v lies below every version that shares the fields the operand gives. */
  predicate BelowRange(v: Version, c: Version) {
    v.major < c.major || (c.patchX && v.major == c.major && v.minor < c.minor)
  }

  /**
   * Without zero padding a partial operand names a range ("=1.2" is
   * 1.2.x): for a release candidate, "=" means inside it and "!=" outside.
   */
  lemma WildcardEquality(v: Version, c: Version, conf: Conf)
    requires WildOperand(c) && Release(v) && !conf.zeroPadding
    ensures Holds(Constraint(c, Eq), v, conf) <==> InRange(v, c)
    ensures Holds(Constraint(c, Ne), v, conf) <==> !InRange(v, c)
  {
    TildeBumpGreater(c);
  }

  /** ">" and "<=" split the versions at the top of the range. */
  lemma WildcardAbove(v: Version, c: Version, conf: Conf)
    requires WildOperand(c) && Release(v) && !conf.zeroPadding
    ensures Holds(Constraint(c, Gt), v, conf) <==> AboveRange(v, c)
    ensures Holds(Constraint(c, Le), v, conf) <==> !AboveRange(v, c)
  {
  }

  /** "<" and ">=" split the versions at the bottom of the range. */
  lemma WildcardBelow(v: Version, c: Version, conf: Conf)
    requires WildOperand(c) && Release(v) && !conf.zeroPadding
    ensures Holds(Constraint(c, Lt), v, conf) <==> BelowRange(v, c)
    ensures Holds(Constraint(c, Ge), v, conf) <==> !BelowRange(v, c)
  {
  }

  /** With zero padding a partial operand is the version with zeros filled in. */
  lemma ZeroPaddingIsPlain(v: Version, c: Version, conf: Conf)
    requires conf.zeroPadding && !c.majorX && GateOpen(v, c, conf)
    ensures Holds(Constraint(c, Eq), v, conf) <==> Equal(v, c)
    ensures Holds(Constraint(c, Ne), v, conf) <==> !Equal(v, c)
    ensures Holds(Constraint(c, Gt), v, conf) <==> GreaterThan(v, c)
    ensures Holds(Constraint(c, Lt), v, conf) <==> LessThan(v, c)
    ensures Holds(Constraint(c, Le), v, conf) <==> LessThanOrEqual(v, c)
    ensures Holds(Constraint(c, Ge), v, conf) <==> GreaterThanOrEqual(v, c)
  {
  }

  /**
   * "~" on a full operand is the tilde range: at least c and sharing its
   * major.minor.
   */
  lemma TildeOperator(v: Version, c: Version, conf: Conf)
    requires !c.majorX && !c.minorX && !c.patchX && c.minor < MaxUint64 && Release(v)
    ensures Holds(Constraint(c, Tilde), v, conf) <==>
      Compare(c, v) <= 0 && v.major == c.major && v.minor == c.minor
  {
    TildeRange(c, v);
  }

  /** "^" on a full operand with a non-zero major: at least c, same major. */
  lemma CaretOperatorMajor(v: Version, c: Version, conf: Conf)
    requires !c.majorX && !c.minorX && !c.patchX && c.major != 0 && c.major < MaxUint64 && Release(v)
    ensures Holds(Constraint(c, Caret), v, conf) <==> Compare(c, v) <= 0 && v.major == c.major
  {
    CaretRangeMajor(c, v);
  }

  /** "^0.0.0" holds for no version at all. */
  lemma CaretZeroMatchesNothing(v: Version, c: Version, conf: Conf)
    requires !c.majorX && !c.minorX && !c.patchX && c.major == 0 && c.minor == 0 && c.patch == 0
    requires Release(c)
    ensures !Holds(Constraint(c, Caret), v, conf)
  {
    if GateOpen(v, c, conf) {
      CaretRangeZeroEmpty(c, v);
    }
  }

  /**
   * The "=" and "!=" of one partial operand overlap on pre-releases once
   * they are let through: 1.2.5-alpha satisfies both "=1.2" and "!=1.2".
   */
  lemma EqualNotEqualOverlap()
    ensures var c := Version(1, 2, 0, "", "", false, false, true, "1.2.0");
      var v := Version(1, 2, 5, "alpha", "", false, false, false, "1.2.5-alpha");
      var conf := Conf(true, false);
      Holds(Constraint(c, Eq), v, conf) && Holds(Constraint(c, Ne), v, conf)
  {
    var c := Version(1, 2, 0, "", "", false, false, true, "1.2.0");
    var v := Version(1, 2, 5, "alpha", "", false, false, false, "1.2.5-alpha");
    assert PreRelease.Compare("alpha", "") == -1;
  }

  /** An operand must start with 'v' or a wildcard-field character. */
  lemma OperandStart(cv: string)
    requires cv != [] && !InClass(cv[0], Wild) && cv[0] != 'v'
    ensures MatchOperand(cv).None?
  {
    var core := Cut(cv).core;
    var f := Split(core, ".")[0];
    SplitHeadPrefix(core, ".");
    if f != [] {
      assert f[0] == core[0] == cv[0];
    }
  }

  /**
   * A clause whose first non-space character can start neither an
   * operator nor an operand is improper.
   */
  lemma LeadingCharImproper(c: string)
    requires SkipSpace(c, 0) < |c|
    requires var x := c[SkipSpace(c, 0)]; !InClass(x, Operator) && !InClass(x, Wild) && x != 'v'
    ensures NewConstraint(c) == Failure(Improper(c))
  {
    var i := SkipSpace(c, 0);
    assert RunEnd(c, i, Operator) == i;
    assert SkipSpace(c, i) == i;
    var cv := TrimRightSpace(c[i..]);
    assert cv != [] && cv[0] == c[i] by {
      assert c[i..][0] == c[i];
    }
    OperandStart(cv);
    assert MatchClause(c).None?;
  }

  /** "BAR >= 1.2.3" is improper: 'B' starts no operand. */
  lemma ImproperExample()
    ensures NewConstraint("BAR >= 1.2.3") == Failure(Improper("BAR >= 1.2.3"))
  {
    var c := "BAR >= 1.2.3";
    assert SkipSpace(c, 0) == 0;
    LeadingCharImproper(c);
  }
}
