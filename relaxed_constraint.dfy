/**
 * Constraints over relaxed versions (package version, constraint.go): the
 * text is first rewritten so that every range "A - B" reads ">= A, <= B.*",
 * then split into "||" groups.  Each group must pass the validity grammar
 * and is cut into clauses by scanning for operator-and-operand matches, so
 * clauses may be separated by commas or by whitespace alone.  Every
 * operator is a plain Compare relation, or a half-open interval from the
 * operand to a bumped operand.
 */
module RelaxedConstraint {
  import opened Wrappers
  import opened Text
  import opened Results
  import Decimal
  import opened Part
  import opened PartList
  import opened Relaxed

  datatype Op = Eq | Ne | Gt | Lt | Ge | Le | Pessimistic | Tilde | Caret

  /** A clause: its operand, the operator as written, the operator it selects, and its text. */
  datatype Constraint = Constraint(version: Version, operator: string, op: Op, original: string)

  /** OR over the outer sequence, AND over each inner one. */
  datatype Constraints = Constraints(groups: seq<seq<Constraint>>)

  datatype ConstraintError = Improper(text: string) // a group or clause outside the grammar

  /** The operator table, with "" meaning "=". */
  function OpOf(tok: string): (r: Option<Op>)
    ensures r.Some? ==> |tok| <= 2 && AllIn(tok, Operator)
  {
    if tok == "" || tok == "=" || tok == "==" then Some(Eq)
    else if tok == "!=" then Some(Ne)
    else if tok == ">" then Some(Gt)
    else if tok == "<" then Some(Lt)
    else if tok == ">=" || tok == "=>" then Some(Ge)
    else if tok == "<=" || tok == "=<" then Some(Le)
    else if tok == "~>" then Some(Pessimistic)
    else if tok == "~" then Some(Tilde)
    else if tok == "^" then Some(Caret)
    else None
  }

  // ---------------------------------------------------------------------
  // The operand expression cv and the two scanning expressions
  // ---------------------------------------------------------------------

  /**
   * A whole text matches cv: an optional 'v', dot-separated fields of
   * [0-9|xX*], then optionally '-' and dot-separated identifiers, then
   * optionally '+' and dot-separated identifiers.
   */
  predicate IsCv(t: string) {
    var body := if t != [] && t[0] == 'v' then t[1..] else t;
    var p := Cut(body);
    && DotFields(p.core, Wild)
    && (p.pre.None? || DotFields(p.pre.value, Ident))
    && (p.build.None? || DotFields(p.build.value, Ident))
  }

  /** End of the dot-separated class-k fields that start at i, each taken as long as it goes. */
  function FieldsEnd(s: string, i: nat, k: CharClass): (e: nat)
    requires i < |s| && InClass(s[i], k)
    ensures i < e <= |s|
    decreases |s| - i
  {
    var r := RunEnd(s, i, k);
    if r + 1 < |s| && s[r] == '.' && InClass(s[r + 1], k) then FieldsEnd(s, r + 1, k) else r
  }

  /** What a greedy cv match captures: where it ends, its number fields and its pre-release. */
  datatype Operand = Operand(end: nat, numbers: string, preRelease: string)

  /** The leftmost-first match of cv starting at p, which takes every optional part it can. */
  function OperandAt(s: string, p: nat): (r: Option<Operand>)
    requires p <= |s|
    ensures r.Some? ==> p < r.value.end <= |s|
  {
    var n := if p + 1 < |s| && s[p] == 'v' && InClass(s[p + 1], Wild) then p + 1 else p;
    if n == |s| || !InClass(s[n], Wild) then None
    else
      var ne := FieldsEnd(s, n, Wild);
      var pe := PieceEnd(s, ne, '-');
      var be := PieceEnd(s, pe, '+');
      Some(Operand(be, s[n..ne], if pe > ne then s[ne + 1..pe] else ""))
  }

  /** End of an optional piece at i: the marker c followed by identifier fields, or nothing. */
  function PieceEnd(s: string, i: nat, c: char): (e: nat)
    requires i <= |s|
    ensures i <= e <= |s|
    ensures e > i ==> e > i + 1 && s[i] == c
  {
    if i + 1 < |s| && s[i] == c && InClass(s[i + 1], Ident) then FieldsEnd(s, i + 1, Ident) else i
  }

  /** A piece the scan takes holds dot-separated identifier fields. */
  lemma PieceDots(s: string, i: nat, c: char)
    requires i <= |s|
    ensures PieceEnd(s, i, c) > i ==> DotFields(s[i + 1..PieceEnd(s, i, c)], Ident)
  {
    if i + 1 < |s| && s[i] == c && InClass(s[i + 1], Ident) {
      FieldsEndDots(s, i + 1, Ident);
    }
  }

  /** The fields FieldsEnd steps over are dot-separated class-k fields. */
  lemma {:induction false} FieldsEndDots(s: string, i: nat, k: CharClass)
    requires i < |s| && InClass(s[i], k) && !InClass('.', k)
    ensures DotFields(s[i..FieldsEnd(s, i, k)], k)
    decreases |s| - i
  {
    var r := RunEnd(s, i, k);
    RunField(s, i, r, k);
    if r + 1 < |s| && s[r] == '.' && InClass(s[r + 1], k) {
      FieldsEndDots(s, r + 1, k);
      FieldsEndNext(s, i, r, k);
      DotFieldsStep(s, i, r, FieldsEnd(s, r + 1, k), k);
    } else {
      assert FieldsEnd(s, i, k) == r;
      DotFieldsOne(s[i..r], k);
    }
  }

  /** When a dot and another field follow the first run, the fields reach as far as those from after the dot. */
  lemma FieldsEndNext(s: string, i: nat, r: nat, k: CharClass)
    requires i < |s| && InClass(s[i], k) && r == RunEnd(s, i, k)
    requires r + 1 < |s| && s[r] == '.' && InClass(s[r + 1], k)
    ensures FieldsEnd(s, i, k) == FieldsEnd(s, r + 1, k)
  {
  }

  /** A field, a dot and dot-separated fields make dot-separated fields. */
  lemma DotFieldsStep(s: string, i: nat, r: nat, e: nat, k: CharClass)
    requires i < r < e <= |s| && s[r] == '.'
    requires AllIn(s[i..r], k) && '.' !in s[i..r] && DotFields(s[r + 1..e], k)
    ensures DotFields(s[i..e], k)
  {
    DotFieldsCons(s[i..r], s[r + 1..e], k);
    DotSlices(s, i, r, e);
  }

  /** A text cut at a dot is its two sides joined by the dot. */
  lemma DotSlices(s: string, i: nat, r: nat, e: nat)
    requires i <= r < e <= |s| && s[r] == '.'
    ensures s[i..e] == s[i..r] + "." + s[r + 1..e]
  {
    assert s[i..e] == s[i..r] + s[r..e];
    assert s[r..e] == "." + s[r + 1..e];
  }

  /** The run of class-k characters at i is one non-empty field without a dot. */
  lemma RunField(s: string, i: nat, r: nat, k: CharClass)
    requires i < |s| && InClass(s[i], k) && !InClass('.', k) && r == RunEnd(s, i, k)
    ensures i < r && AllIn(s[i..r], k) && '.' !in s[i..r]
  {
  }

  /** What the greedy scan takes as an operand is a complete cv. */
  lemma OperandIsCv(s: string, p: nat)
    requires p <= |s| && OperandAt(s, p).Some?
    ensures IsCv(s[p..OperandAt(s, p).value.end])
  {
    var n := if p + 1 < |s| && s[p] == 'v' && InClass(s[p + 1], Wild) then p + 1 else p;
    var ne := FieldsEnd(s, n, Wild);
    var pe := PieceEnd(s, ne, '-');
    var be := PieceEnd(s, pe, '+');
    FieldsEndDots(s, n, Wild);
    PieceDots(s, ne, '-');
    PieceDots(s, pe, '+');
    CvFromPieces(s, p, n, ne, pe, be);
  }

  /**
   * s[p..be] is a cv when it is an optional 'v', number fields s[n..ne],
   * then optionally '-' and identifier fields up to pe, then optionally '+'
   * and identifier fields up to be.
   */
  lemma CvFromPieces(s: string, p: nat, n: nat, ne: nat, pe: nat, be: nat)
    requires p <= n <= ne <= pe <= be <= |s|
    requires (n == p + 1 && s[p] == 'v') || (n == p && n < |s| && InClass(s[n], Wild))
    requires DotFields(s[n..ne], Wild)
    requires pe > ne ==> pe > ne + 1 && s[ne] == '-' && DotFields(s[ne + 1..pe], Ident)
    requires be > pe ==> be > pe + 1 && s[pe] == '+' && DotFields(s[pe + 1..be], Ident)
    ensures IsCv(s[p..be])
  {
    var core := s[n..ne];
    var pre := if pe > ne then s[ne + 1..pe] else "";
    var build := if be > pe then s[pe + 1..be] else "";
    OperandSlices(s, p, n, ne, pe, be);
    RenderedIsCv(core, pre, build);
  }

  /** The text from p to be, cut at n, ne and pe, is the rendered pieces. */
  lemma OperandSlices(s: string, p: nat, n: nat, ne: nat, pe: nat, be: nat)
    requires p <= n <= ne <= pe <= be <= |s|
    requires n == p || (n == p + 1 && s[p] == 'v')
    requires pe > ne ==> pe > ne + 1 && s[ne] == '-'
    requires be > pe ==> be > pe + 1 && s[pe] == '+'
    ensures var pre := if pe > ne then s[ne + 1..pe] else "";
      var build := if be > pe then s[pe + 1..be] else "";
      var t := s[n..ne] + (if pre != "" then "-" + pre else "") + (if build != "" then "+" + build else "");
      s[p..be] == (if n == p then t else "v" + t)
  {
    PiecesSlices(s, n, ne, pe, be);
    if n == p + 1 {
      assert s[p..be] == s[p..n] + s[n..be];
      assert s[p..n] == "v";
    }
  }

  /** The text from n to be, cut at ne and pe, is the number fields and the marked pieces. */
  lemma PiecesSlices(s: string, n: nat, ne: nat, pe: nat, be: nat)
    requires n <= ne <= pe <= be <= |s|
    requires pe > ne ==> pe > ne + 1 && s[ne] == '-'
    requires be > pe ==> be > pe + 1 && s[pe] == '+'
    ensures var pre := if pe > ne then s[ne + 1..pe] else "";
      var build := if be > pe then s[pe + 1..be] else "";
      s[n..be] == s[n..ne] + (if pre != "" then "-" + pre else "") + (if build != "" then "+" + build else "")
  {
    ThreeSlices(s, n, ne, pe, be);
    MarkedPiece(s, ne, pe, '-');
    MarkedPiece(s, pe, be, '+');
  }

  /** A slice cut at two inner points is its three parts joined. */
  lemma ThreeSlices(s: string, a: nat, b: nat, c: nat, d: nat)
    requires a <= b <= c <= d <= |s|
    ensures s[a..d] == s[a..b] + s[b..c] + s[c..d]
  {
    assert s[a..d] == s[a..b] + s[b..d];
    assert s[b..d] == s[b..c] + s[c..d];
  }

  /** Number fields with an optional pre-release and build, as rendered, form a cv, with or without a leading 'v'. */
  lemma RenderedIsCv(core: string, pre: string, build: string)
    requires DotFields(core, Wild)
    requires pre == "" || DotFields(pre, Ident)
    requires build == "" || DotFields(build, Ident)
    ensures var t := core + (if pre != "" then "-" + pre else "") + (if build != "" then "+" + build else "");
      IsCv(t) && IsCv("v" + t)
  {
    var t := core + (if pre != "" then "-" + pre else "") + (if build != "" then "+" + build else "");
    assert '-' !in core && '+' !in core by {
      DotFieldsLack(core, Wild, '-');
      DotFieldsLack(core, Wild, '+');
    }
    assert '+' !in pre by {
      if pre != "" {
        DotFieldsLack(pre, Ident, '+');
      }
    }
    CutRendered(core, pre, build);
    assert t != [] && t[0] != 'v' by {
      SplitHeadPrefix(core, ".");
      assert core[0] == Split(core, ".")[0][0];
    }
    assert ("v" + t)[1..] == t;
  }

  /** A piece s[i..j] that is empty or a marker c and its text. */
  lemma MarkedPiece(s: string, i: nat, j: nat, c: char)
    requires i <= j <= |s| && (j > i ==> j > i + 1 && s[i] == c)
    ensures var piece := if j > i then s[i + 1..j] else "";
      s[i..j] == (if piece != "" then [c] + piece else "")
  {
  }

  /** Dot-separated fields start with a character of their class. */
  lemma DotFieldsHead(t: string, k: CharClass)
    requires DotFields(t, k)
    ensures t != [] && InClass(t[0], k)
  {
    SplitEmpty(".");
    SplitHeadPrefix(t, ".");
    assert t[0] == Split(t, ".")[0][0];
  }

  /**
   * When s[i..e] is dot-separated class-k fields and the character at e
   * can neither continue a field nor be a dot, the fields scanned from i
   * end exactly at e.
   */
  lemma {:induction false} FieldsEndAt(s: string, i: nat, e: nat, k: CharClass)
    requires i < e <= |s| && DotFields(s[i..e], k) && !InClass('.', k)
    requires e < |s| ==> !InClass(s[e], k) && s[e] != '.'
    ensures InClass(s[i], k) && FieldsEnd(s, i, k) == e
    decreases e - i
  {
    if '.' !in s[i..e] {
      FieldsEndLast(s, i, e, k);
    } else {
      var j := FieldsEndFirst(s, i, e, k);
      FieldsEndAt(s, i + j + 1, e, k);
    }
  }

  /** A last field with no dot: the scan stops where it ends. */
  lemma FieldsEndLast(s: string, i: nat, e: nat, k: CharClass)
    requires i < e <= |s| && DotFields(s[i..e], k) && '.' !in s[i..e]
    requires e < |s| ==> !InClass(s[e], k) && s[e] != '.'
    ensures InClass(s[i], k) && FieldsEnd(s, i, k) == e
  {
    var t := s[i..e];
    DotFieldsHead(t, k);
    IndexOfCharNone(t, '.');
    assert Split(t, ".") == [t];
    assert Split(t, ".")[0] == t;
    assert AllIn(t, k);
    forall j | i <= j < e
      ensures InClass(s[j], k)
    {
      assert s[j] == t[j - i];
    }
    RunEndAt(s, i, e, k);
  }

  /** Dot-separated fields with a dot in them: a first field, its dot, and more fields. */
  lemma DotFieldsSplit(t: string, k: CharClass) returns (j: nat)
    requires DotFields(t, k) && '.' in t
    ensures 0 < j < |t| - 1 && t[j] == '.' && AllIn(t[..j], k) && DotFields(t[j + 1..], k)
  {
    IndexOfChar(t, '.');
    j := IndexOf(t, ".").value;
    var rest := t[j + 1..];
    assert Split(t, ".") == [t[..j]] + Split(rest, ".");
    forall x | 0 <= x < |Split(rest, ".")|
      ensures Split(rest, ".")[x] != "" && AllIn(Split(rest, ".")[x], k)
    {
      assert Split(rest, ".")[x] == Split(t, ".")[x + 1];
    }
    assert Split(t, ".")[0] == t[..j];
    DotFieldsHead(rest, k);
  }

  /** The first of several fields: the run stops at its dot and the fields resume after it. */
  lemma FieldsEndFirst(s: string, i: nat, e: nat, k: CharClass) returns (j: nat)
    requires i < e <= |s| && DotFields(s[i..e], k) && !InClass('.', k) && '.' in s[i..e]
    ensures i + j + 1 < e && DotFields(s[i + j + 1..e], k) && InClass(s[i], k) && InClass(s[i + j + 1], k)
    ensures FieldsEnd(s, i, k) == FieldsEnd(s, i + j + 1, k)
  {
    var t := s[i..e];
    j := DotFieldsSplit(t, k);
    var rest := t[j + 1..];
    forall x | i <= x < i + j
      ensures InClass(s[x], k)
    {
      assert s[x] == t[..j][x - i];
    }
    assert s[i + j] == t[j];
    RunEndAt(s, i, i + j, k);
    DotFieldsHead(rest, k);
    assert s[i + j + 1..e] == rest;
    assert s[i + j + 1] == rest[0];
    FieldsEndNext(s, i, i + j, k);
  }

  /**
   * An optional piece s[i..e]: empty with no marker c at i, or the marker
   * and identifier fields ending where whitespace, a '+' or the end
   * follows.  The scan of the piece ends at e.
   */
  lemma PieceEndAt(s: string, i: nat, e: nat, c: char)
    requires i <= e <= |s|
    requires e == i ==> i == |s| || s[i] != c
    requires e > i ==> e > i + 1 && s[i] == c && DotFields(s[i + 1..e], Ident)
    requires e < |s| ==> !InClass(s[e], Ident) && s[e] != '.'
    ensures PieceEnd(s, i, c) == e
  {
    if e > i {
      FieldsEndAt(s, i + 1, e, Ident);
    }
  }

  /** Position e ends a cv: the text ends there, or whitespace or a comma follows. */
  predicate OperandEnds(s: string, e: nat) {
    e == |s| || (e < |s| && (IsRegexSpace(s[e]) || s[e] == ','))
  }

  /**
   * The greedy operand scan at p reads back a cv laid out as an optional
   * 'v', number fields s[n..ne], an optional '-' piece up to pe and an
   * optional '+' piece up to be, when whitespace, a comma or the end follows.
   */
  lemma OperandSpan(s: string, p: nat, n: nat, ne: nat, pe: nat, be: nat, numbers: string, preRelease: string)
    requires p <= n < ne <= pe <= be <= |s|
    requires (n == p + 1 && s[p] == 'v') || n == p
    requires DotFields(s[n..ne], Wild)
    requires pe > ne ==> pe > ne + 1 && s[ne] == '-' && DotFields(s[ne + 1..pe], Ident)
    requires be > pe ==> be > pe + 1 && s[pe] == '+' && DotFields(s[pe + 1..be], Ident)
    requires OperandEnds(s, be)
    requires numbers == s[n..ne] && preRelease == (if pe > ne then s[ne + 1..pe] else "")
    ensures OperandAt(s, p) == Some(Operand(be, numbers, preRelease))
  {
    DotFieldsHead(s[n..ne], Wild);
    assert s[n] == s[n..ne][0];
    assert n == (if p + 1 < |s| && s[p] == 'v' && InClass(s[p + 1], Wild) then p + 1 else p);
    PieceEndAt(s, pe, be, '+');
    assert pe < |s| ==> !InClass(s[pe], Ident) && s[pe] != '.';
    PieceEndAt(s, ne, pe, '-');
    assert ne < |s| ==> !InClass(s[ne], Wild) && s[ne] != '.';
    FieldsEndAt(s, n, ne, Wild);
    OperandAtSteps(s, p, n, ne, pe, be);
  }

  /** The operand scan at p, read step by step: 'v', number fields, '-' piece, '+' piece. */
  lemma OperandAtSteps(s: string, p: nat, n: nat, ne: nat, pe: nat, be: nat)
    requires p <= n < |s| && InClass(s[n], Wild)
    requires n == (if p + 1 < |s| && s[p] == 'v' && InClass(s[p + 1], Wild) then p + 1 else p)
    requires FieldsEnd(s, n, Wild) == ne && PieceEnd(s, ne, '-') == pe && PieceEnd(s, pe, '+') == be
    ensures OperandAt(s, p) == Some(Operand(be, s[n..ne], if pe > ne then s[ne + 1..pe] else ""))
  {
    assert !(n == |s| || !InClass(s[n], Wild));
  }

  /** The text of a cv after its optional leading 'v'. */
  function CvBody(t: string): (b: string)
    ensures |b| <= |t|
  {
    if t != [] && t[0] == 'v' then t[1..] else t
  }

  /** The number fields of a cv text. */
  function CvNumbers(t: string): string {
    Cut(CvBody(t)).core
  }

  /** The pre-release of a cv text, without its '-'. */
  function CvPreRelease(t: string): string {
    var p := Cut(CvBody(t));
    if p.pre.Some? then p.pre.value else ""
  }

  /**
   * A whole cv at s[p..e] followed by whitespace, a comma or the end is what the
   * greedy scan at p takes: it ends at e, with the cv's numbers and
   * pre-release.
   */
  lemma CvOperand(s: string, p: nat, e: nat)
    requires p < e <= |s| && IsCv(s[p..e])
    requires OperandEnds(s, e)
    ensures OperandAt(s, p) == Some(Operand(e, CvNumbers(s[p..e]), CvPreRelease(s[p..e])))
  {
    var t := s[p..e];
    CvPieces(t);
    var n := CvBodySlice(s, p, e);
    var c := Cut(CvBody(t));
    var x := if c.pre.Some? then "-" + c.pre.value else "";
    var y := if c.build.Some? then "+" + c.build.value else "";
    var ne := n + |c.core|;
    var pe := ne + |x|;
    SliceParts(s, n, ne, pe, e, c.core, x, y);
    OperandPieces(s, p, n, ne, pe, e, c.core, c.pre, c.build);
  }

  /** Where the body of the cv text s[p..e] starts in s. */
  lemma CvBodySlice(s: string, p: nat, e: nat) returns (n: nat)
    requires p <= e <= |s|
    ensures p <= n <= e && s[n..e] == CvBody(s[p..e]) && ((n == p + 1 && s[p] == 'v') || n == p)
  {
    var t := s[p..e];
    if t != [] && t[0] == 'v' {
      n := p + 1;
      assert s[p] == t[0];
    } else {
      n := p;
    }
  }

  /** The pieces of a cv text are dot-separated fields of their classes. */
  lemma CvPieces(t: string)
    requires IsCv(t)
    ensures var c := Cut(CvBody(t));
      && DotFields(c.core, Wild)
      && (c.pre.Some? ==> DotFields(c.pre.value, Ident))
      && (c.build.Some? ==> DotFields(c.build.value, Ident))
  {
  }

  /**
   * The greedy scan at p over an optional 'v' and then number fields, an
   * optional pre-release and an optional build as Cut would find them.
   */
  lemma OperandPieces(s: string, p: nat, n: nat, ne: nat, pe: nat, e: nat,
                      core: string, pre: Option<string>, build: Option<string>)
    requires p <= n <= ne <= pe <= e <= |s| && ((n == p + 1 && s[p] == 'v') || n == p)
    requires s[n..ne] == core && DotFields(core, Wild)
    requires s[ne..pe] == (if pre.Some? then "-" + pre.value else "")
    requires s[pe..e] == (if build.Some? then "+" + build.value else "")
    requires pre.Some? ==> DotFields(pre.value, Ident)
    requires build.Some? ==> DotFields(build.value, Ident)
    requires OperandEnds(s, e)
    ensures OperandAt(s, p) == Some(Operand(e, core, if pre.Some? then pre.value else ""))
  {
    DotFieldsHead(core, Wild);
    OptionalSlice(s, ne, pe, '-', pre);
    OptionalSlice(s, pe, e, '+', build);
    OperandSpan(s, p, n, ne, pe, e, core, if pre.Some? then pre.value else "");
  }

  /** A slice that spells a + b + c is cut at the ends of a and b into those three. */
  lemma SliceParts(s: string, n: nat, m: nat, k: nat, e: nat, a: string, b: string, c: string)
    requires n <= e <= |s| && s[n..e] == a + b + c
    requires m == n + |a| && k == m + |b|
    ensures k <= e && s[n..m] == a && s[m..k] == b && s[k..e] == c
  {
    var w := a + b + c;
    assert w[..|a|] == a;
    assert w[|a|..|a| + |b|] == b;
    assert w[|a| + |b|..] == c;
    SubSlice(s, n, e, 0, |a|);
    SubSlice(s, n, e, |a|, |a| + |b|);
    SubSlice(s, n, e, |a| + |b|, |w|);
  }

  /** A slice of a slice is a slice. */
  lemma SubSlice(s: string, n: nat, e: nat, i: nat, j: nat)
    requires n <= e <= |s| && i <= j <= e - n
    ensures s[n..e][i..j] == s[n + i..n + j]
  {
    forall x | 0 <= x < j - i
      ensures s[n..e][i..j][x] == s[n + i..n + j][x]
    {
      assert s[n..e][i..j][x] == s[n..e][i + x];
    }
  }

  /** A slice that spells an optional marked piece, as Cut found it. */
  lemma OptionalSlice(s: string, i: nat, j: nat, c: char, piece: Option<string>)
    requires i <= j <= |s| && s[i..j] == (if piece.Some? then [c] + piece.value else "")
    requires piece.Some? ==> DotFields(piece.value, Ident)
    ensures j > i <==> piece.Some?
    ensures j > i ==> j > i + 1 && s[i] == c && DotFields(s[i + 1..j], Ident)
    ensures (if j > i then s[i + 1..j] else "") == (if piece.Some? then piece.value else "")
  {
    if piece.Some? {
      DotFieldsHead(piece.value, Ident);
      MarkedSlice(s, i, j, c, piece.value);
    }
  }

  /** A slice that spells a marker and a piece starts with the marker. */
  lemma MarkedSlice(s: string, i: nat, j: nat, c: char, piece: string)
    requires i <= j <= |s| && s[i..j] == [c] + piece
    ensures j == i + 1 + |piece| && s[i] == c && s[i + 1..j] == piece
  {
    assert s[i] == s[i..j][0];
    assert s[i + 1..j] == s[i..j][1..];
  }

  /** The two unanchored expressions the parser scans with. */
  datatype Pattern =
    | ClauseExpr // operator, \s*, cv
    | RangeExpr  // cv, \s+, '-', \s+, cv

  /** A match and the submatches the parser reads from it. */
  datatype Found =
    | ClauseFound(start: nat, end: nat, op: string, numbers: string, preRelease: string)
    | RangeFound(start: nat, end: nat, lower: string, upperNumbers: string)

  /**
   * The clause expression at q.  The operator must be the whole run of
   * operator characters at q, since a shorter one would leave an operator
   * character where the operand has to begin.
   */
  function ClauseAt(s: string, q: nat): (r: Option<Found>)
    requires q <= |s|
    ensures r.Some? ==> r.value.ClauseFound? && r.value.start == q < r.value.end <= |s|
    ensures r.Some? ==> OpOf(r.value.op).Some?
  {
    var oe := RunEnd(s, q, Operator);
    var op := s[q..oe];
    if OpOf(op).None? then None
    else
      match OperandAt(s, SkipSpace(s, oe))
      case None => None
      case Some(o) => Some(ClauseFound(q, o.end, op, o.numbers, o.preRelease))
  }

  /** The range expression at q: an operand, spaces, '-', spaces, an operand. */
  function RangeAt(s: string, q: nat): (r: Option<Found>)
    requires q <= |s|
    ensures r.Some? ==> r.value.RangeFound? && r.value.start == q < r.value.end <= |s|
    ensures r.Some? ==> '-' in s
  {
    match OperandAt(s, q)
    case None => None
    case Some(lo) => RangeAfter(s, q, lo.end)
  }

  /** The rest of a range whose lower operand spans s[q..le]: spaces, '-', spaces, an operand. */
  function RangeAfter(s: string, q: nat, le: nat): (r: Option<Found>)
    requires q < le <= |s|
    ensures r.Some? ==> r.value.RangeFound? && r.value.start == q < r.value.end <= |s|
    ensures r.Some? ==> '-' in s
  {
    var d := SkipSpace(s, le);
    if d == le || d == |s| || s[d] != '-' then None
    else RangeTail(s, q, le, d)
  }

  /** The rest of a range after its dash at d: spaces, an operand. */
  function RangeTail(s: string, q: nat, le: nat, d: nat): (r: Option<Found>)
    requires q < le <= d < |s| && s[d] == '-'
    ensures r.Some? ==> r.value.RangeFound? && r.value.start == q < r.value.end <= |s|
  {
    var c := SkipSpace(s, d + 1);
    if c == d + 1 then None
    else
      match OperandAt(s, c)
      case None => None
      case Some(hi) => Some(RangeFound(q, hi.end, s[q..le], hi.numbers))
  }

  function MatchAt(pat: Pattern, s: string, q: nat): (r: Option<Found>)
    requires q <= |s|
    ensures r.Some? ==> r.value.start == q < r.value.end <= |s|
    ensures r.Some? ==> (r.value.ClauseFound? <==> pat == ClauseExpr)
  {
    match pat
    case ClauseExpr => ClauseAt(s, q)
    case RangeExpr => RangeAt(s, q)
  }

  /** The match, if any, at every start position of s. */
  function MatchTable(pat: Pattern, s: string): (t: seq<Option<Found>>)
    ensures |t| == |s| && forall q | 0 <= q < |s| :: t[q] == MatchAt(pat, s, q)
    ensures Placed(t)
  {
    seq(|s|, q requires 0 <= q < |s| => MatchAt(pat, s, q))
  }

  /** The first position at or after pos whose entry is a match, or |t| when there is none. */
  function FirstIndex(t: seq<Option<Found>>, pos: nat): (q: nat)
    requires pos <= |t|
    ensures pos <= q <= |t| && (q < |t| ==> t[q].Some?)
    ensures forall k | pos <= k < q :: t[k].None?
    decreases |t| - pos
  {
    if pos == |t| || t[pos].Some? then pos else FirstIndex(t, pos + 1)
  }

  /** A position with a match and nothing before it from pos on is the first one. */
  lemma FirstIndexAt(t: seq<Option<Found>>, pos: nat, q: nat)
    requires pos <= q <= |t| && (q < |t| ==> t[q].Some?)
    requires forall k | pos <= k < q :: t[k].None?
    ensures FirstIndex(t, pos) == q
  {
  }

  /** The leftmost match that starts at or after pos. */
  function FirstFrom(pat: Pattern, s: string, pos: nat): (r: Option<Found>)
    requires pos <= |s|
    ensures r.Some? ==> pos <= r.value.start < r.value.end <= |s|
    ensures r.Some? ==> (r.value.ClauseFound? <==> pat == ClauseExpr)
  {
    var t := MatchTable(pat, s);
    var q := FirstIndex(t, pos);
    if q < |s| then t[q] else None
  }

  /** A match FirstFrom reports is one, and nothing matches before it: the search is leftmost. */
  lemma FirstFromLeftmost(pat: Pattern, s: string, pos: nat)
    requires pos <= |s| && FirstFrom(pat, s, pos).Some?
    ensures var m := FirstFrom(pat, s, pos).value;
      && MatchAt(pat, s, m.start) == Some(m)
      && forall q | pos <= q < m.start :: MatchAt(pat, s, q).None?
  {
    var t := MatchTable(pat, s);
    var q := FirstIndex(t, pos);
    assert FirstFrom(pat, s, pos) == t[q] == MatchAt(pat, s, q);
    forall k | pos <= k < q
      ensures MatchAt(pat, s, k).None?
    {
      assert t[k].None?;
    }
  }

  /** When FirstFrom finds nothing, no match starts anywhere from pos on. */
  lemma FirstFromNone(pat: Pattern, s: string, pos: nat)
    requires pos <= |s| && FirstFrom(pat, s, pos).None?
    ensures forall q | pos <= q <= |s| :: MatchAt(pat, s, q).None?
  {
    var t := MatchTable(pat, s);
    assert FirstIndex(t, pos) == |s|;
    forall q | pos <= q <= |s|
      ensures MatchAt(pat, s, q).None?
    {
      if q < |s| {
        assert t[q].None?;
      }
    }
  }

  /** A match at q with nothing before it from pos on is the one FirstFrom reports. */
  lemma FirstFromAt(pat: Pattern, s: string, pos: nat, q: nat)
    requires pos <= q <= |s| && MatchAt(pat, s, q).Some?
    requires forall k | pos <= k < q :: MatchAt(pat, s, k).None?
    ensures FirstFrom(pat, s, pos) == MatchAt(pat, s, q)
  {
    var t := MatchTable(pat, s);
    forall k | pos <= k < q
      ensures t[k].None?
    {
      assert t[k] == MatchAt(pat, s, k);
    }
    FirstIndexAt(t, pos, q);
  }

  /** Every entry of a match table starts at its own position and ends inside the text. */
  predicate Placed(t: seq<Option<Found>>) {
    forall q | 0 <= q < |t| :: t[q].Some? ==> t[q].value.start == q < t[q].value.end <= |t|
  }

  /** The successive leftmost entries of a table from pos on, each search resuming where the previous match ended. */
  function FindAllIn(t: seq<Option<Found>>, pos: nat): (r: seq<Found>)
    requires pos <= |t| && Placed(t)
    ensures forall i | 0 <= i < |r| :: pos <= r[i].start < r[i].end <= |t| && t[r[i].start] == Some(r[i])
    decreases |t| - pos
  {
    var q := FirstIndex(t, pos);
    if q == |t| then []
    else
      var rest := FindAllIn(t, t[q].value.end);
      MatchesCons(t, pos, t[q].value, rest);
      [t[q].value] + rest
  }

  /** A match and the matches after it keep FindAllIn's bounds. */
  lemma MatchesCons(t: seq<Option<Found>>, pos: nat, m: Found, rest: seq<Found>)
    requires pos <= m.start < m.end <= |t| && t[m.start] == Some(m)
    requires forall i | 0 <= i < |rest| :: m.end <= rest[i].start < rest[i].end <= |t| && t[rest[i].start] == Some(rest[i])
    ensures forall i | 0 <= i < |[m] + rest| ::
      pos <= ([m] + rest)[i].start < ([m] + rest)[i].end <= |t| && t[([m] + rest)[i].start] == Some(([m] + rest)[i])
  {
    var r := [m] + rest;
    assert forall i | 1 <= i < |r| :: r[i] == rest[i - 1];
  }

  /** A match at q with nothing before it from pos on comes first, and the search resumes at its end. */
  lemma FindAllInAt(t: seq<Option<Found>>, pos: nat, q: nat)
    requires Placed(t) && pos <= q < |t| && t[q].Some?
    requires forall k | pos <= k < q :: t[k].None?
    ensures FindAllIn(t, pos) == [t[q].value] + FindAllIn(t, t[q].value.end)
  {
    FirstIndexAt(t, pos, q);
  }

  /** Positions without a match do not move the search. */
  lemma FindAllInSkip(t: seq<Option<Found>>, p: nat, q: nat)
    requires Placed(t) && p <= q <= |t|
    requires forall k | p <= k < q :: t[k].None?
    ensures FindAllIn(t, p) == FindAllIn(t, q)
  {
    FirstIndexAt(t, p, FirstIndex(t, q));
  }

  /**
   * FindAllString and FindAllStringSubmatch: successive leftmost matches,
   * each search resuming where the previous match ended.
   */
  function FindAllFrom(pat: Pattern, s: string, pos: nat): (r: seq<Found>)
    requires pos <= |s|
    ensures forall i | 0 <= i < |r| :: pos <= r[i].start < r[i].end <= |s|
    ensures forall i | 0 <= i < |r| :: r[i].ClauseFound? <==> pat == ClauseExpr
  {
    var t := MatchTable(pat, s);
    var r := FindAllIn(t, pos);
    assert forall i | 0 <= i < |r| :: MatchAt(pat, s, r[i].start) == Some(r[i]);
    r
  }

  /** The matched texts. */
  function Texts(s: string, ms: seq<Found>): (r: seq<string>)
    requires forall i | 0 <= i < |ms| :: ms[i].start < ms[i].end <= |s|
    ensures |r| == |ms| && forall i | 0 <= i < |ms| :: r[i] == s[ms[i].start..ms[i].end]
  {
    seq(|ms|, i requires 0 <= i < |ms| => s[ms[i].start..ms[i].end])
  }

  // ---------------------------------------------------------------------
  // The validity grammar  ^\s*(\s*op\s*cv\s*,?)*\s*$
  // ---------------------------------------------------------------------

  /**
   * s[i..] is a run of clauses, each an operator, an operand and an
   * optional comma, with whitespace anywhere between them.  The operand may
   * end wherever a complete cv ends, not only where the greedy scan stops.
   */
  predicate ValidFrom(s: string, i: nat)
    requires i <= |s|
    decreases |s| - i
  {
    var j := SkipSpace(s, i);
    j == |s| ||
    var oe := RunEnd(s, j, Operator);
    OpOf(s[j..oe]).Some? &&
    var c := SkipSpace(s, oe);
    exists e | c < e <= |s| ::
      && IsCv(s[c..e])
      && var f := SkipSpace(s, e);
         ValidFrom(s, f) || (f < |s| && s[f] == ',' && ValidFrom(s, f + 1))
  }

  predicate Valid(vv: string) {
    ValidFrom(vv, 0)
  }

  // ---------------------------------------------------------------------
  // rewriteRange
  // ---------------------------------------------------------------------

  /** The replacement for one range: ">= A, <= B.*" with B's number fields. */
  function Template(m: Found): (r: string)
    requires m.RangeFound?
  {
    ">= " + m.lower + ", <= " + m.upperNumbers + ".*"
  }

  /** The text after replacing, in turn, the first occurrence of each match's text. */
  function Rewritten(s: string, ms: seq<Found>): string
    requires forall i | 0 <= i < |ms| :: ms[i].RangeFound? && ms[i].start < ms[i].end <= |s|
    decreases |ms|
  {
    if ms == [] then s
    else
      var m := ms[|ms| - 1];
      ReplaceFirst(Rewritten(s, ms[..|ms| - 1]), s[m.start..m.end], Template(m))
  }

  function Ranges(s: string): (r: seq<Found>)
    ensures forall i | 0 <= i < |r| :: r[i].RangeFound? && r[i].start < r[i].end <= |s|
  {
    FindAllFrom(RangeExpr, s, 0)
  }

  function RewriteRange(s: string): string {
    Rewritten(s, Ranges(s))
  }

  /** One more match replaces one more first occurrence. */
  lemma RewrittenSnoc(s: string, ms: seq<Found>, k: nat)
    requires forall i | 0 <= i < |ms| :: ms[i].RangeFound? && ms[i].start < ms[i].end <= |s|
    requires k < |ms|
    ensures Rewritten(s, ms[..k + 1]) == ReplaceFirst(Rewritten(s, ms[..k]), s[ms[k].start..ms[k].end], Template(ms[k]))
  {
    assert ms[..k + 1][..k] == ms[..k];
  }

  /** rewriteRange: one strings.Replace per range match, in order. */
  method RewriteRangeOf(i: string) returns (o: string)
    ensures o == RewriteRange(i)
  {
    var m := Ranges(i);
    if m == [] {
      return i;
    }
    o := ReplaceEach(i, m);
  }

  /** The loop of rewriteRange: each match's text, in order, replaced once by its template. */
  method ReplaceEach(i: string, m: seq<Found>) returns (o: string)
    requires forall j | 0 <= j < |m| :: m[j].RangeFound? && m[j].start < m[j].end <= |i|
    ensures o == Rewritten(i, m)
  {
    o := i;
    for k := 0 to |m|
      invariant o == Rewritten(i, m[..k])
    {
      RewrittenSnoc(i, m, k);
      o := ReplaceFirst(o, i[m[k].start..m[k].end], Template(m[k]));
    }
    assert m[..|m|] == m;
  }

  /** Only a '-' can start a rewrite: a text without one is left as it is. */
  lemma NoDashNoRewrite(s: string)
    requires '-' !in s
    ensures RewriteRange(s) == s
  {
    if FirstFrom(RangeExpr, s, 0).Some? {
      FirstFromLeftmost(RangeExpr, s, 0);
      assert false;
    }
  }

  /** A non-empty run of \s characters. */
  predicate Blank(sp: string) {
    sp != [] && forall j | 0 <= j < |sp| :: IsRegexSpace(sp[j])
  }

  /** A cv text starts with 'v' or a number-field character, never with whitespace. */
  lemma CvHead(t: string)
    requires IsCv(t)
    ensures t != [] && !IsRegexSpace(t[0]) && !InClass(t[0], Operator)
  {
    CvPieces(t);
    var c := Cut(CvBody(t));
    DotFieldsHead(c.core, Wild);
    assert CvBody(t)[0] == c.core[0];
  }

  /** Where the pieces of a + sp1 + "-" + sp2 + b sit. */
  lemma RangeLayout(s: string, a: string, sp1: string, sp2: string, b: string, d: nat, c: nat)
    requires s == a + sp1 + "-" + sp2 + b
    requires d == |a| + |sp1| && c == d + 1 + |sp2|
    ensures |s| == c + |b| && s[0..|a|] == a && s[c..|s|] == b && s[d] == '-'
    ensures s[|a|..d] == sp1 && s[d + 1..c] == sp2
  {
  }

  /** Whitespace sp at s[i..e] with no whitespace after it: the \s run from i ends at e. */
  lemma SkipBlank(s: string, i: nat, e: nat, sp: string)
    requires i <= e <= |s| && s[i..e] == sp && (sp == "" || Blank(sp))
    requires e < |s| ==> !IsRegexSpace(s[e])
    ensures SkipSpace(s, i) == e
  {
    forall j | i <= j < e
      ensures IsRegexSpace(s[j])
    {
      assert s[j] == sp[j - i];
    }
    SkipSpaceAt(s, i, e);
  }

  /** The range expression at the start of "A - B" spans the whole text. */
  lemma RangeAtWhole(a: string, sp1: string, sp2: string, b: string)
    requires IsCv(a) && IsCv(b) && Blank(sp1) && Blank(sp2)
    ensures RangeAt(a + sp1 + "-" + sp2 + b, 0)
         == Some(RangeFound(0, |a + sp1 + "-" + sp2 + b|, a, CvNumbers(b)))
  {
    var s := a + sp1 + "-" + sp2 + b;
    var d := |a| + |sp1|;
    var c := d + 1 + |sp2|;
    var lo := Operand(|a|, CvNumbers(a), CvPreRelease(a));
    var hi := Operand(|s|, CvNumbers(b), CvPreRelease(b));
    RangeParts(s, a, sp1, sp2, b, d, c);
    RangeAtSteps(s, 0, lo, d, c, hi);
  }

  /** The steps of the range expression over "A - B". */
  lemma RangeParts(s: string, a: string, sp1: string, sp2: string, b: string, d: nat, c: nat)
    requires IsCv(a) && IsCv(b) && Blank(sp1) && Blank(sp2)
    requires s == a + sp1 + "-" + sp2 + b
    requires d == |a| + |sp1| && c == d + 1 + |sp2|
    ensures c < |s| && s[0..|a|] == a
    ensures OperandAt(s, 0) == Some(Operand(|a|, CvNumbers(a), CvPreRelease(a)))
    ensures SkipSpace(s, |a|) == d && d != |a| && d < |s| && s[d] == '-'
    ensures SkipSpace(s, d + 1) == c && c != d + 1
    ensures OperandAt(s, c) == Some(Operand(|s|, CvNumbers(b), CvPreRelease(b)))
  {
    RangeLower(s, a, sp1, sp2, b, d, c);
    RangeUpper(s, a, sp1, sp2, b, d, c);
  }

  /** The lower operand of "A - B" and the spaces up to the dash. */
  lemma RangeLower(s: string, a: string, sp1: string, sp2: string, b: string, d: nat, c: nat)
    requires IsCv(a) && IsCv(b) && Blank(sp1)
    requires s == a + sp1 + "-" + sp2 + b
    requires d == |a| + |sp1| && c == d + 1 + |sp2|
    ensures c <= |s| && s[0..|a|] == a
    ensures OperandAt(s, 0) == Some(Operand(|a|, CvNumbers(a), CvPreRelease(a)))
    ensures SkipSpace(s, |a|) == d && d != |a| && d < |s| && s[d] == '-'
  {
    RangeLayout(s, a, sp1, sp2, b, d, c);
    CvHead(a);
    SkipBlank(s, |a|, d, sp1);
    assert s[|a|] == sp1[0];
    CvOperand(s, 0, |a|);
  }

  /** The spaces after the dash of "A - B" and the upper operand. */
  lemma RangeUpper(s: string, a: string, sp1: string, sp2: string, b: string, d: nat, c: nat)
    requires IsCv(b) && Blank(sp2)
    requires s == a + sp1 + "-" + sp2 + b
    requires d == |a| + |sp1| && c == d + 1 + |sp2|
    ensures c < |s|
    ensures SkipSpace(s, d + 1) == c && c != d + 1
    ensures OperandAt(s, c) == Some(Operand(|s|, CvNumbers(b), CvPreRelease(b)))
  {
    RangeLayout(s, a, sp1, sp2, b, d, c);
    CvHead(b);
    assert s[c] == b[0];
    SkipBlank(s, d + 1, c, sp2);
    CvOperand(s, c, |s|);
  }

  /** The range expression at q, read step by step: operand, then the rest. */
  lemma RangeAtSteps(s: string, q: nat, lo: Operand, d: nat, c: nat, hi: Operand)
    requires q <= |s| && OperandAt(s, q) == Some(lo)
    requires SkipSpace(s, lo.end) == d && d != lo.end && d < |s| && s[d] == '-'
    requires SkipSpace(s, d + 1) == c && c != d + 1 && OperandAt(s, c) == Some(hi)
    ensures RangeAt(s, q) == Some(RangeFound(q, hi.end, s[q..lo.end], hi.numbers))
  {
    RangeAfterSteps(s, q, lo.end, d, c, hi);
  }

  /** The rest of a range, read step by step: spaces, '-', spaces, operand. */
  lemma RangeAfterSteps(s: string, q: nat, le: nat, d: nat, c: nat, hi: Operand)
    requires q < le <= |s|
    requires SkipSpace(s, le) == d && d != le && d < |s| && s[d] == '-'
    requires SkipSpace(s, d + 1) == c && c != d + 1 && OperandAt(s, c) == Some(hi)
    ensures RangeAfter(s, q, le) == Some(RangeFound(q, hi.end, s[q..le], hi.numbers))
  {
    RangeTailSteps(s, q, le, d, c, hi);
  }

  /** The rest of a range after its dash, read step by step: spaces, operand. */
  lemma RangeTailSteps(s: string, q: nat, le: nat, d: nat, c: nat, hi: Operand)
    requires q < le <= d < |s| && s[d] == '-'
    requires SkipSpace(s, d + 1) == c && c != d + 1 && OperandAt(s, c) == Some(hi)
    ensures RangeTail(s, q, le, d) == Some(RangeFound(q, hi.end, s[q..le], hi.numbers))
  {
  }

  /**
   * rewriteRange on a single range "A - B", with whitespace around the
   * dash: the whole text becomes ">= A, <= N.*", where N is B's number
   * fields.
   */
  lemma RangeRewrite(a: string, sp1: string, sp2: string, b: string)
    requires IsCv(a) && IsCv(b) && Blank(sp1) && Blank(sp2)
    ensures RewriteRange(a + sp1 + "-" + sp2 + b) == ">= " + a + ", <= " + CvNumbers(b) + ".*"
  {
    var s := a + sp1 + "-" + sp2 + b;
    var m := RangeFound(0, |s|, a, CvNumbers(b));
    RangeAtWhole(a, sp1, sp2, b);
    OneRange(s, m);
    RewriteOne(s, m);
    assert s[0..|s|] == s;
    ReplaceWhole(s, Template(m));
  }

  /** A range match that spans the whole text is the only one. */
  lemma OneRange(s: string, m: Found)
    requires 0 < |s| && RangeAt(s, 0) == Some(m) && m.end == |s|
    ensures Ranges(s) == [m]
  {
    var t := MatchTable(RangeExpr, s);
    assert t[0] == MatchAt(RangeExpr, s, 0) == Some(m);
    FindAllInAt(t, 0, 0);
    assert FindAllIn(t, |s|) == [];
  }

  /** A text with one range match: one replacement. */
  lemma RewriteOne(s: string, m: Found)
    requires m.RangeFound? && m.start < m.end <= |s| && Ranges(s) == [m]
    ensures RewriteRange(s) == ReplaceFirst(s, s[m.start..m.end], Template(m))
  {
    RewrittenSnoc(s, [m], 0);
    assert [m][..1] == [m];
    assert [m][..0] == [];
  }

  /** Replacing a whole text leaves only the replacement. */
  lemma ReplaceWhole(s: string, t: string)
    requires s != []
    ensures ReplaceFirst(s, s, t) == t
  {
    assert s[0..|s|] == s;
    assert IndexFrom(s, s, 0) == Some(0);
  }

  // ---------------------------------------------------------------------
  // newConstraint and NewConstraints
  // ---------------------------------------------------------------------

  /**
   * newConstraint: the empty clause gets the operand "*" and "="; any other
   * clause takes the operator, the number fields (through NewPart) and the
   * pre-release of its leftmost clause match.
   */
  function NewConstraint(c: string): (r: Result<Constraint, ConstraintError>)
    ensures c != "" ==> (r.Success? <==> exists q | 0 <= q <= |c| :: ClauseAt(c, q).Some?)
    ensures r.Success? ==> r.value.original == c && OpOf(r.value.operator) == Some(r.value.op)
    ensures r.Success? ==> Printable(r.value.version) && r.value.version.buildMetadata == ""
  {
    if c == "" then Success(Constraint(Version(PartsOf("*"), "", "", ""), "", Eq, ""))
    else
      match FirstFrom(ClauseExpr, c, 0)
      case None =>
        FirstFromNone(ClauseExpr, c, 0);
        assert forall q | 0 <= q <= |c| :: MatchAt(ClauseExpr, c, q) == ClauseAt(c, q);
        Failure(Improper(c))
      case Some(m) =>
        FirstFromLeftmost(ClauseExpr, c, 0);
        Success(Constraint(Version(PartsOf(m.numbers), "", m.preRelease, c), m.op, OpOf(m.op).value, c))
  }

  /**
   * The constraint a clause yields is read from its leftmost clause match:
   * that match's operator, and an operand made of its number fields and
   * its pre-release, with no build metadata and the clause as original.
   */
  lemma NewConstraintOperand(c: string, q: nat)
    requires q <= |c| && ClauseAt(c, q).Some?
    requires forall k | 0 <= k < q :: ClauseAt(c, k).None?
    ensures var m := ClauseAt(c, q).value;
      NewConstraint(c) == Success(Constraint(Version(PartsOf(m.numbers), "", m.preRelease, c), m.op, OpOf(m.op).value, c))
  {
    forall k | 0 <= k < q
      ensures MatchAt(ClauseExpr, c, k).None?
    {
      assert MatchAt(ClauseExpr, c, k) == ClauseAt(c, k);
    }
    FirstFromAt(ClauseExpr, c, 0, q);
  }

  method NewConstraintOf(c: string) returns (r: Result<Constraint, ConstraintError>)
    ensures r == NewConstraint(c)
  {
    if c == "" {
      var star := NewParts("*");
      return Success(Constraint(Version(star, "", "", ""), "", Eq, ""));
    }
    var m := FirstFrom(ClauseExpr, c, 0);
    if m.None? {
      return Failure(Improper(c));
    }
    FirstFromLeftmost(ClauseExpr, c, 0);
    var segments := NewParts(m.value.numbers);
    return Success(Constraint(Version(segments, "", m.value.preRelease, c), m.value.op, OpOf(m.value.op).value, c));
  }

  /** The clause texts of a valid group: the scan's matches, or the trimmed group if there are none. */
  function Singles(vv: string): (r: seq<string>)
    ensures |r| >= 1
  {
    var ss := Texts(vv, FindAllFrom(ClauseExpr, vv, 0));
    if ss == [] then [TrimSpace(vv)] else ss
  }

  /** One "||" group: the validity grammar, then each clause through newConstraint. */
  function ParseGroup(vv: string): Result<seq<Constraint>, ConstraintError> {
    if !Valid(vv) then Failure(Improper(vv))
    else CollectAll(Singles(vv), NewConstraint)
  }

  /** NewConstraints: rewrite the ranges, split on "||", parse each group; the first failure decides. */
  function ParseConstraints(s: string): Result<Constraints, ConstraintError> {
    match CollectAll(Split(RewriteRange(s), "||"), ParseGroup)
    case Failure(e) => Failure(e)
    case Success(css) => Success(Constraints(css))
  }

  method NewConstraints(v: string) returns (r: Result<Constraints, ConstraintError>)
    ensures r == ParseConstraints(v)
  {
    var rewritten := RewriteRangeOf(v);
    var groups := Split(rewritten, "||");
    var css := NewGroups(groups);
    if css.Failure? {
      return Failure(css.error);
    }
    return Success(Constraints(css.value));
  }

  /** The outer loop of NewConstraints: the groups in order; the first failure decides. */
  method NewGroups(groups: seq<string>) returns (r: Result<seq<seq<Constraint>>, ConstraintError>)
    ensures r == CollectAll(groups, ParseGroup)
  {
    var css: seq<seq<Constraint>> := [];
    for i := 0 to |groups|
      invariant CollectAll(groups[..i], ParseGroup) == Success(css)
    {
      var cs := NewGroup(groups[i]);
      if cs.Failure? {
        CollectAllFirstFailure(groups, ParseGroup, i);
        return Failure(cs.error);
      }
      CollectAllSnoc(groups, ParseGroup, i, css);
      css := css + [cs.value];
    }
    assert groups[..|groups|] == groups;
    return Success(css);
  }

  /** The body of the outer loop of NewConstraints: one group, clause by clause. */
  method NewGroup(vv: string) returns (r: Result<seq<Constraint>, ConstraintError>)
    ensures r == ParseGroup(vv)
  {
    if !Valid(vv) {
      return Failure(Improper(vv));
    }
    var ss := Singles(vv);
    var cs: seq<Constraint> := [];
    for j := 0 to |ss|
      invariant CollectAll(ss[..j], NewConstraint) == Success(cs)
    {
      var c := NewConstraintOf(ss[j]);
      if c.Failure? {
        CollectAllFirstFailure(ss, NewConstraint, j);
        return Failure(c.error);
      }
      CollectAllSnoc(ss, NewConstraint, j, cs);
      cs := cs + [c.value];
    }
    assert ss[..|ss|] == ss;
    return Success(cs);
  }

  // ---------------------------------------------------------------------
  // The bumps behind "~>", "~" and "^"
  // ---------------------------------------------------------------------

  /** A segment plus one: a uint64 "+= 1", which wraps at 2^64; a text segment has no successor and stays. */
  function IncPart(p: Part): (r: Part)
    requires Plain(p)
    ensures Plain(r) && (r.Uint64? <==> p.Uint64?)
    ensures p.Uint64? && p.u < Decimal.MaxUint64 ==> r.u == p.u + 1
    ensures p.Uint64? && p.u == Decimal.MaxUint64 ==> r.u == 0
  {
    if p.Uint64? then Uint64((p.u + 1) % (Decimal.MaxUint64 + 1)) else p
  }

  function Zeros(n: nat): (r: seq<Part>)
    ensures |r| == n && forall j | 0 <= j < n :: r[j] == Uint64(0)
  {
    seq(n, j => Uint64(0))
  }

  /** The operand with segment k raised by one, every later segment zero, and no pre-release or metadata. */
  function BumpAt(c: Version, k: nat): (r: Version)
    requires k < |c.segments| && AllPlain(c.segments)
    ensures Printable(r) && |r.segments| == |c.segments|
    ensures r.segments[..k] == c.segments[..k] && r.segments[k] == IncPart(c.segments[k])
    ensures forall j | k < j < |r.segments| :: r.segments[j] == Uint64(0)
    ensures r.preRelease == "" && r.buildMetadata == ""
    ensures AllNumeric(c.segments) ==> WellFormed(r)
  {
    var r := Version(c.segments[..k] + [IncPart(c.segments[k])] + Zeros(|c.segments| - k - 1), "", "", "");
    assert forall j | 0 <= j < k :: r.segments[j] == c.segments[j];
    r
  }

  /** The first segment that is not a zero number, or the last segment when all are zero. */
  function FirstNonZero(segments: seq<Part>): (k: nat)
    requires |segments| >= 1
    ensures k < |segments|
    ensures forall j | 0 <= j < k :: segments[j] == Uint64(0)
    ensures segments[k] != Uint64(0) || k == |segments| - 1
    decreases |segments|
  {
    if segments[0] != Uint64(0) || |segments| == 1 then 0
    else 1 + FirstNonZero(segments[1..])
  }

  /** The operators that accept a half-open interval from the operand up to a bump. */
  predicate Interval(op: Op) {
    op.Pessimistic? || op.Tilde? || op.Caret?
  }

  /** The segment each bump raises. */
  function UpperIndex(op: Op, segments: seq<Part>): (k: nat)
    requires Interval(op) && |segments| >= 1
    ensures k < |segments|
  {
    match op
    case Pessimistic => if |segments| == 1 then 0 else |segments| - 2
    case Tilde => if |segments| == 1 then 0 else 1
    case Caret => FirstNonZero(segments)
  }

  /** PessimisticBump: the next-to-last segment goes up ("1.0.7" to "1.1.0", "1.0" to "2.0"); a lone one goes up itself. */
  function PessimisticBump(c: Version): (r: Version)
    requires Printable(c)
    ensures var n := |c.segments|;
      && Printable(r) && |r.segments| == n && r.preRelease == "" && r.buildMetadata == ""
      && (n == 1 ==> r.segments == [IncPart(c.segments[0])])
      && (n >= 2 ==> r.segments == c.segments[..n - 2] + [IncPart(c.segments[n - 2]), Uint64(0)])
  {
    var r := BumpAt(c, UpperIndex(Pessimistic, c.segments));
    assert |c.segments| >= 2 ==> r.segments == r.segments[..|c.segments| - 2] + [r.segments[|c.segments| - 2], r.segments[|c.segments| - 1]];
    r
  }

  /** TildeBump: the minor segment goes up and later ones become zero ("1.2.3" to "1.3.0"); a lone major goes up. */
  function TildeBump(c: Version): (r: Version)
    requires Printable(c)
    ensures var n := |c.segments|;
      && Printable(r) && |r.segments| == n && r.preRelease == "" && r.buildMetadata == ""
      && (n == 1 ==> r.segments == [IncPart(c.segments[0])])
      && (n >= 2 ==> r.segments[0] == c.segments[0] && r.segments[1] == IncPart(c.segments[1]))
      && (forall j | 2 <= j < n :: r.segments[j] == Uint64(0))
  {
    var r := BumpAt(c, UpperIndex(Tilde, c.segments));
    assert |c.segments| >= 2 ==> r.segments[0] == r.segments[..1][0];
    r
  }

  /**
   * CaretBump: the first non-zero segment goes up and later ones become
   * zero ("1.2.3" to "2.0.0", "0.2.3" to "0.3.0"); when every segment is
   * zero, the last one goes up ("0.0" to "0.1").
   */
  function CaretBump(c: Version): (r: Version)
    requires Printable(c)
    ensures var k := FirstNonZero(c.segments);
      && Printable(r) && |r.segments| == |c.segments| && r.preRelease == "" && r.buildMetadata == ""
      && (forall j | 0 <= j < k :: r.segments[j] == Uint64(0))
      && r.segments[k] == IncPart(c.segments[k])
      && (forall j | k < j < |r.segments| :: r.segments[j] == Uint64(0))
  {
    var k := FirstNonZero(c.segments);
    var r := BumpAt(c, k);
    assert forall j | 0 <= j < k :: r.segments[j] == r.segments[..k][j];
    r
  }

  /** The bump of an interval operator. */
  function Upper(op: Op, c: Version): (r: Version)
    requires Interval(op) && Printable(c)
    ensures r == BumpAt(c, UpperIndex(op, c.segments))
  {
    match op
    case Pessimistic => PessimisticBump(c)
    case Tilde => TildeBump(c)
    case Caret => CaretBump(c)
  }

  /** A release operand with the given segments, for the bump tables below. */
  function Release(ps: seq<Part>): (r: Version)
    requires |ps| >= 1 && AllNumeric(ps)
    ensures Printable(r)
  {
    Version(ps, "", "", "")
  }

  /** "~> 1.0.7" ends below "1.1.0". */
  lemma PessimisticThree()
    ensures PessimisticBump(Release([Uint64(1), Uint64(0), Uint64(7)])).segments == [Uint64(1), Uint64(1), Uint64(0)]
  {
  }

  /** "~> 1.0" ends below "2.0". */
  lemma PessimisticTwo()
    ensures PessimisticBump(Release([Uint64(1), Uint64(0)])).segments == [Uint64(2), Uint64(0)]
  {
  }

  /** "~> 1.0.9.5" ends below "1.0.10.0". */
  lemma PessimisticFour()
    ensures PessimisticBump(Release([Uint64(1), Uint64(0), Uint64(9), Uint64(5)])).segments == [Uint64(1), Uint64(0), Uint64(10), Uint64(0)]
  {
  }

  /** "~1.2.3" ends below "1.3.0". */
  lemma TildeThree()
    ensures TildeBump(Release([Uint64(1), Uint64(2), Uint64(3)])).segments == [Uint64(1), Uint64(3), Uint64(0)]
  {
  }

  /** "~1.2" ends below "1.3". */
  lemma TildeTwo()
    ensures TildeBump(Release([Uint64(1), Uint64(2)])).segments == [Uint64(1), Uint64(3)]
  {
  }

  /** "~1" ends below "2". */
  lemma TildeOne()
    ensures TildeBump(Release([Uint64(1)])).segments == [Uint64(2)]
  {
  }

  /** "^1.2.3" ends below "2.0.0". */
  lemma CaretMajor()
    ensures CaretBump(Release([Uint64(1), Uint64(2), Uint64(3)])).segments == [Uint64(2), Uint64(0), Uint64(0)]
  {
  }

  /** "^0.2.3" ends below "0.3.0". */
  lemma CaretMinor()
    ensures CaretBump(Release([Uint64(0), Uint64(2), Uint64(3)])).segments == [Uint64(0), Uint64(3), Uint64(0)]
  {
  }

  /** "^0.0.3" ends below "0.0.4". */
  lemma CaretPatch()
    ensures CaretBump(Release([Uint64(0), Uint64(0), Uint64(3)])).segments == [Uint64(0), Uint64(0), Uint64(4)]
  {
  }

  /** "^0.0" ends below "0.1" and "^0" below "1": an all-zero operand bumps its last segment. */
  lemma CaretZeros()
    ensures CaretBump(Release([Uint64(0), Uint64(0)])).segments == [Uint64(0), Uint64(1)]
    ensures CaretBump(Release([Uint64(0)])).segments == [Uint64(1)]
  {
  }

  // ---------------------------------------------------------------------
  // Operators, check and andCheck
  // ---------------------------------------------------------------------

  function ConstraintEqual(v: Version, c: Version): bool
    requires Printable(v) && Printable(c)
  {
    Equal(v, c)
  }

  function ConstraintNotEqual(v: Version, c: Version): bool
    requires Printable(v) && Printable(c)
  {
    !Equal(v, c)
  }

  function ConstraintGreaterThan(v: Version, c: Version): bool
    requires Printable(v) && Printable(c)
  {
    GreaterThan(v, c)
  }

  function ConstraintLessThan(v: Version, c: Version): bool
    requires Printable(v) && Printable(c)
  {
    LessThan(v, c)
  }

  function ConstraintGreaterThanEqual(v: Version, c: Version): bool
    requires Printable(v) && Printable(c)
  {
    GreaterThanOrEqual(v, c)
  }

  function ConstraintLessThanEqual(v: Version, c: Version): bool
    requires Printable(v) && Printable(c)
  {
    LessThanOrEqual(v, c)
  }

  function ConstraintPessimistic(v: Version, c: Version): bool
    requires Printable(v) && Printable(c)
  {
    GreaterThanOrEqual(v, c) && LessThan(v, PessimisticBump(c))
  }

  function ConstraintTilde(v: Version, c: Version): bool
    requires Printable(v) && Printable(c)
  {
    GreaterThanOrEqual(v, c) && LessThan(v, TildeBump(c))
  }

  function ConstraintCaret(v: Version, c: Version): bool
    requires Printable(v) && Printable(c)
  {
    GreaterThanOrEqual(v, c) && LessThan(v, CaretBump(c))
  }

  /** The operator table entry an Op selects. */
  function Apply(op: Op, v: Version, c: Version): bool
    requires Printable(v) && Printable(c)
  {
    match op
    case Eq => ConstraintEqual(v, c)
    case Ne => ConstraintNotEqual(v, c)
    case Gt => ConstraintGreaterThan(v, c)
    case Lt => ConstraintLessThan(v, c)
    case Ge => ConstraintGreaterThanEqual(v, c)
    case Le => ConstraintLessThanEqual(v, c)
    case Pessimistic => ConstraintPessimistic(v, c)
    case Tilde => ConstraintTilde(v, c)
    case Caret => ConstraintCaret(v, c)
  }

  /** Every operand of a group can be printed, which Compare needs. */
  predicate GroupUsable(group: seq<Constraint>) {
    forall j | 0 <= j < |group| :: Printable(group[j].version)
  }

  predicate Usable(cs: Constraints) {
    forall i | 0 <= i < |cs.groups| :: GroupUsable(cs.groups[i])
  }

  /** constraint.check. */
  predicate Holds(k: Constraint, v: Version)
    requires Printable(v) && Printable(k.version)
  {
    Apply(k.op, v, k.version)
  }

  predicate AllHold(group: seq<Constraint>, v: Version)
    requires Printable(v) && GroupUsable(group)
  {
    forall j | 0 <= j < |group| :: Holds(group[j], v)
  }

  /** andCheck: every clause of the group holds. */
  method AndCheck(v: Version, group: seq<Constraint>) returns (b: bool)
    requires Printable(v) && GroupUsable(group)
    ensures b <==> AllHold(group, v)
  {
    for j := 0 to |group|
      invariant forall i | 0 <= i < j :: Holds(group[i], v)
    {
      if !Holds(group[j], v) {
        return false;
      }
      forall i | 0 <= i < j + 1
        ensures Holds(group[i], v)
      {
        if i == j {
          assert group[i] == group[j];
        }
      }
    }
    return true;
  }

  /** Check: some group has every clause holding. */
  method Check(cs: Constraints, v: Version) returns (b: bool)
    requires Usable(cs) && Printable(v)
    ensures b <==> exists i | 0 <= i < |cs.groups| :: AllHold(cs.groups[i], v)
  {
    for i := 0 to |cs.groups|
      invariant forall j | 0 <= j < i :: !AllHold(cs.groups[j], v)
    {
      var ok := AndCheck(v, cs.groups[i]);
      if ok {
        return true;
      }
      forall j | 0 <= j < i + 1
        ensures !AllHold(cs.groups[j], v)
      {
        if j == i {
          assert cs.groups[j] == cs.groups[i];
        }
      }
    }
    return false;
  }

  // ---------------------------------------------------------------------
  // Constraints.String
  // ---------------------------------------------------------------------

  /** strings.Join: "" for no elements. */
  function JoinAll(xs: seq<string>, sep: string): (r: string)
    ensures xs == [] ==> r == ""
    ensures |xs| == 1 ==> r == xs[0]
  {
    if xs == [] then "" else Join(xs, sep)
  }

  /** The clause texts of a group, which Constraint.String returns. */
  function Originals(group: seq<Constraint>): (r: seq<string>)
    ensures |r| == |group| && forall j | 0 <= j < |group| :: r[j] == group[j].original
  {
    seq(|group|, j requires 0 <= j < |group| => group[j].original)
  }

  function GroupString(group: seq<Constraint>): string {
    JoinAll(Originals(group), ",")
  }

  function GroupStrings(groups: seq<seq<Constraint>>): (r: seq<string>)
    ensures |r| == |groups| && forall i | 0 <= i < |groups| :: r[i] == GroupString(groups[i])
  {
    seq(|groups|, i requires 0 <= i < |groups| => GroupString(groups[i]))
  }

  /** Constraints.String: clause texts joined by "," inside a group, groups joined by "||". */
  function ConstraintsString(cs: Constraints): string {
    JoinAll(GroupStrings(cs.groups), "||")
  }

  method StringOfConstraints(cs: Constraints) returns (s: string)
    ensures s == ConstraintsString(cs)
  {
    var csStr: seq<string> := [];
    for i := 0 to |cs.groups|
      invariant csStr == GroupStrings(cs.groups[..i])
    {
      var group := cs.groups[i];
      var cstr: seq<string> := [];
      for j := 0 to |group|
        invariant cstr == Originals(group[..j])
      {
        cstr := cstr + [group[j].original];
      }
      assert group[..|group|] == group;
      csStr := csStr + [JoinAll(cstr, ",")];
    }
    assert cs.groups[..|cs.groups|] == cs.groups;
    s := JoinAll(csStr, "||");
  }

  /** A group whose clause texts have no comma splits back into those texts. */
  lemma GroupStringSplits(group: seq<Constraint>)
    requires group != [] && forall j | 0 <= j < |group| :: ',' !in group[j].original
    ensures Split(GroupString(group), ",") == Originals(group)
  {
    SplitJoin(Originals(group), ',');
  }

  // ---------------------------------------------------------------------
  // What the operators mean
  // ---------------------------------------------------------------------

  /**
   * The six plain operators are Compare relations: "=" and "!=" are
   * complements, exactly one of "<", "=", ">" holds, and ">=", "<=" are
   * the unions.
   */
  lemma OperatorsPartition(v: Version, c: Version)
    requires Printable(v) && Printable(c)
    ensures ConstraintNotEqual(v, c) <==> !ConstraintEqual(v, c)
    ensures ConstraintLessThan(v, c) || ConstraintEqual(v, c) || ConstraintGreaterThan(v, c)
    ensures !(ConstraintLessThan(v, c) && ConstraintGreaterThan(v, c))
    ensures ConstraintGreaterThanEqual(v, c) <==> ConstraintGreaterThan(v, c) || ConstraintEqual(v, c)
    ensures ConstraintLessThanEqual(v, c) <==> ConstraintLessThan(v, c) || ConstraintEqual(v, c)
  {
  }

  /** "~>", "~" and "^" accept the half-open interval from the operand up to its bump. */
  lemma IntervalOperators(op: Op, v: Version, c: Version)
    requires Interval(op) && Printable(v) && Printable(c)
    ensures Apply(op, v, c) <==> GreaterThanOrEqual(v, c) && LessThan(v, Upper(op, c))
  {
    match op
    case Pessimistic => assert Apply(op, v, c) == ConstraintPessimistic(v, c);
    case Tilde => assert Apply(op, v, c) == ConstraintTilde(v, c);
    case Caret => assert Apply(op, v, c) == ConstraintCaret(v, c);
  }

  /** Raising a numeric segment that has room makes the version strictly greater. */
  lemma BumpAbove(c: Version, k: nat)
    requires WellFormed(c) && k < |c.segments| && c.segments[k].u < Decimal.MaxUint64
    ensures LessThan(c, BumpAt(c, k))
  {
    var b := BumpAt(c, k);
    assert AllNumeric(c.segments);
    FastPathAgrees(c, b);
    OrderNumeric(c, b);
    FirstDifference(c.segments, b.segments, Some(Uint64(0)), k);
  }

  /** An operand with room to bump satisfies its own "~>", "~" and "^": "^0.0.3" accepts "0.0.3". */
  lemma OwnRange(op: Op, c: Version)
    requires Interval(op) && WellFormed(c)
    requires c.segments[UpperIndex(op, c.segments)].u < Decimal.MaxUint64
    ensures Apply(op, c, c)
  {
    BumpAbove(c, UpperIndex(op, c.segments));
  }

  /**
   * Below the bump: a version that agrees with the operand up to and
   * including the bumped segment is accepted exactly when it is at least
   * the operand ("~1.2.3" accepts "1.2.4", "~> 1.0.7" accepts "1.0.7.5").
   */
  lemma PrefixWithinRange(op: Op, v: Version, c: Version)
    requires Interval(op) && WellFormed(v) && WellFormed(c)
    requires var k := UpperIndex(op, c.segments);
      && c.segments[k].u < Decimal.MaxUint64
      && k < |v.segments| && v.segments[..k + 1] == c.segments[..k + 1]
    ensures Apply(op, v, c) <==> GreaterThanOrEqual(v, c)
  {
    var k := UpperIndex(op, c.segments);
    var b := Upper(op, c);
    assert v.segments[..k] == b.segments[..k] && v.segments[k] == c.segments[k] by {
      assert v.segments[..k] == v.segments[..k + 1][..k];
      assert c.segments[..k] == c.segments[..k + 1][..k];
      assert v.segments[k] == v.segments[..k + 1][k];
    }
    BelowAt(v, b, k);
    IntervalOperators(op, v, c);
  }

  /** A version that agrees with b before segment k and is smaller at k is below b. */
  lemma BelowAt(v: Version, b: Version, k: nat)
    requires WellFormed(v) && WellFormed(b)
    requires k < |v.segments| && k < |b.segments| && v.segments[..k] == b.segments[..k]
    requires v.segments[k].u < b.segments[k].u
    ensures LessThan(v, b)
  {
    assert AllNumeric(v.segments) && AllNumeric(b.segments);
    FastPathAgrees(v, b);
    OrderNumeric(v, b);
    FirstDifference(v.segments, b.segments, Some(Uint64(0)), k);
  }

  /**
   * At or past the bump: a release that starts with the bumped segments is
   * refused ("~1.2.3" refuses "1.3.0" and "1.3.4", "^0.0" refuses "0.1.4").
   */
  lemma PrefixBeyondRange(op: Op, v: Version, c: Version)
    requires Interval(op) && WellFormed(v) && WellFormed(c) && v.preRelease == ""
    requires var k := UpperIndex(op, c.segments);
      k < |v.segments| && v.segments[..k + 1] == Upper(op, c).segments[..k + 1]
    ensures !Apply(op, v, c)
  {
    var k := UpperIndex(op, c.segments);
    var b := Upper(op, c);
    assert AllNumeric(v.segments) && AllNumeric(b.segments);
    NotBelowBump(v, b, k);
    IntervalOperators(op, v, c);
  }

  /** A release that starts with a bump's segments up to k, after which the bump is all zeros, is not below it. */
  lemma NotBelowBump(v: Version, b: Version, k: nat)
    requires |v.segments| >= 1 && AllNumeric(v.segments) && AllNumeric(b.segments)
    requires v.preRelease == "" && b.preRelease == ""
    requires k < |v.segments| && k < |b.segments| && v.segments[..k + 1] == b.segments[..k + 1]
    requires forall j | k < j < |b.segments| :: b.segments[j] == Uint64(0)
    ensures Printable(v) && Printable(b) && !LessThan(v, b)
  {
    BumpPrefixOrder(v, b, k);
    NotLessByOrder(v, b);
  }

  /** The order behind NotBelowBump: equal up to k, and nothing but zeros to beat after it. */
  lemma BumpPrefixOrder(v: Version, b: Version, k: nat)
    requires AllNumeric(v.segments) && AllNumeric(b.segments)
    requires v.preRelease == "" && b.preRelease == ""
    requires k < |v.segments| && k < |b.segments| && v.segments[..k + 1] == b.segments[..k + 1]
    requires forall j | k < j < |b.segments| :: b.segments[j] == Uint64(0)
    ensures AllPlain(v.segments) && AllPlain(b.segments) && Order(v, b) >= 0
  {
    var pad := Some(Uint64(0));
    OrderNumeric(v, b);
    var n := Max(|v.segments|, |b.segments|);
    CompareLex(v.segments, b.segments, pad, n);
    CommonPrefixLex(v.segments, b.segments, pad, 0, k + 1, n);
    LexOverZeros(v.segments, b.segments, k + 1, n);
  }

  /**
   * "=" has no wildcard degrade: a version that continues the operand with
   * zeros and then a non-zero segment is not equal but greater ("= 2.1"
   * refuses "2.1.1").
   */
  lemma EqualIsExact(c: Version, zeros: seq<Part>, u: Decimal.u64)
    requires WellFormed(c) && u != 0
    requires forall j | 0 <= j < |zeros| :: zeros[j] == Uint64(0)
    ensures var w := c.(segments := c.segments + zeros + [Uint64(u)]);
      Printable(w) && !ConstraintEqual(w, c) && ConstraintGreaterThan(w, c) && ConstraintNotEqual(w, c)
  {
    SignificantTail(c, zeros, u);
  }

  /** Trailing zero segments and build metadata do not matter to "=": "= 1.2" accepts "1.2.0+build". */
  lemma EqualIgnoresZeros(c: Version, zeros: seq<Part>, build: string, original: string)
    requires Printable(c)
    requires forall j | 0 <= j < |zeros| :: zeros[j] == Uint64(0)
    ensures var w := c.(segments := c.segments + zeros, buildMetadata := build, original := original);
      Printable(w) && ConstraintEqual(w, c)
  {
    var w := c.(segments := c.segments + zeros, buildMetadata := build, original := original);
    ZerosAndBuildIgnored(c, zeros, build, original);
    CompareAntisymmetric(c, w);
  }

  /** The operand newConstraint gives the empty clause: the single text segment "*". */
  lemma EmptyOperand()
    ensures NewConstraint("").Success?
    ensures NewConstraint("").value.version.segments == [Str("*")]
  {
    IndexOfCharNone("*", '.');
    assert Split("*", ".") == ["*"];
    assert !IsDigit('*');
  }

  /**
   * The empty clause matches no parsed version: its operand "*" is a text
   * segment, and every number sorts below text.
   */
  lemma EmptyClauseMatchesNothing(v: Version)
    requires WellFormed(v)
    ensures NewConstraint("").Success? && Printable(v)
    ensures !Holds(NewConstraint("").value, v)
  {
    EmptyOperand();
    var c := NewConstraint("").value.version;
    StarRendersApart(v, c);
    StarOrder(v, c);
  }

  /** A parsed version never prints as an operand whose first segment is "*". */
  lemma StarRendersApart(v: Version, c: Version)
    requires WellFormed(v) && c.segments == [Str("*")]
    ensures Printable(v) && Printable(c) && String(v) != String(c)
  {
    RenderedNumbers(v.segments);
    assert String(v)[0] == Numbers(v.segments)[0];
    assert String(c)[0] == '%';
  }

  /** A parsed version sorts below the lone text segment "*". */
  lemma StarOrder(v: Version, c: Version)
    requires WellFormed(v) && c.segments == [Str("*")]
    ensures AllPlain(v.segments) && AllPlain(c.segments) && Order(v, c) == -1
  {
    var star := [Str("*")];
    var pad := Some(Uint64(0));
    NormalizedPlain(v.segments);
    var np := Normalized(v.segments);
    NormalizedLastShown(star);
    var n := Max(|np|, 1);
    CompareLex(np, star, pad, n);
    assert Elem(np, 0, pad).value.Uint64? by {
      if |np| > 0 {
        assert np[0] == v.segments[0];
      }
    }
    assert LexFrom(np, star, pad, 0, n) == -1;
  }


  /** Every operand of a parsed constraint can be printed, so Check may be asked of it. */
  lemma ParsedUsable(s: string)
    requires ParseConstraints(s).Success?
    ensures Usable(ParseConstraints(s).value)
  {
    var groups := Split(RewriteRange(s), "||");
    var css := ParseConstraints(s).value.groups;
    CollectAllSuccess(groups, ParseGroup);
    forall i | 0 <= i < |css|
      ensures GroupUsable(css[i])
    {
      assert css[i] == ParseGroup(groups[i]).value;
      CollectAllSuccess(Singles(groups[i]), NewConstraint);
    }
  }

  /** A "||" group outside the validity grammar makes the whole text fail: "> 1.0 || < foo". */
  lemma ImproperGroupFails(s: string, i: nat)
    requires i < |Split(RewriteRange(s), "||")| && !Valid(Split(RewriteRange(s), "||")[i])
    ensures ParseConstraints(s).Failure?
  {
    assert ParseGroup(Split(RewriteRange(s), "||")[i]).Failure?;
    CollectAllSuccess(Split(RewriteRange(s), "||"), ParseGroup);
  }

  // ---------------------------------------------------------------------
  // Clauses written one after another come back one by one
  // ---------------------------------------------------------------------

  /** A clause as written: an operator, optional whitespace, an operand. */
  datatype Written = Written(op: string, gap: string, cv: string)

  function Spell(k: Written): string {
    k.op + k.gap + k.cv
  }

  function Spells(ks: seq<Written>): (r: seq<string>)
    ensures |r| == |ks| && forall i | 0 <= i < |ks| :: r[i] == Spell(ks[i])
  {
    seq(|ks|, i requires 0 <= i < |ks| => Spell(ks[i]))
  }

  /** A written clause the scan reads whole: a non-empty operator of the table, whitespace, a cv. */
  predicate WellWritten(k: Written) {
    k.op != "" && OpOf(k.op).Some? && (k.gap == "" || Blank(k.gap)) && IsCv(k.cv)
  }

  /** What separates written clauses: whitespace and commas, at least one character. */
  predicate Separator(sep: string) {
    sep != [] && forall j | 0 <= j < |sep| :: IsRegexSpace(sep[j]) || sep[j] == ','
  }

  /** Where the three parts of a written clause sit in s. */
  lemma WrittenLayout(s: string, q: nat, k: Written, oe: nat, c: nat, e: nat)
    requires oe == q + |k.op| && c == oe + |k.gap| && e == c + |k.cv|
    requires e <= |s| && s[q..e] == Spell(k)
    ensures s[q..oe] == k.op && s[c..e] == k.cv
    ensures forall j | oe <= j < c :: s[j] == k.gap[j - oe]
  {
    SliceParts(s, q, oe, c, e, k.op, k.gap, k.cv);
  }

  /** A well-written clause at q, followed by whitespace, a comma or the end, is the clause match at q. */
  lemma ClauseAtWritten(s: string, q: nat, k: Written, e: nat)
    requires WellWritten(k) && e == q + |Spell(k)| && e <= |s| && s[q..e] == Spell(k)
    requires OperandEnds(s, e)
    ensures ClauseAt(s, q) == Some(ClauseFound(q, e, k.op, CvNumbers(k.cv), CvPreRelease(k.cv)))
  {
    var oe := q + |k.op|;
    var c := oe + |k.gap|;
    WrittenLayout(s, q, k, oe, c, e);
    ClauseAtParts(s, q, oe, c, e, k.op, k.gap, k.cv);
  }

  /** An operator, optional whitespace and a cv laid out from q to e, then whitespace, a comma or the end. */
  lemma ClauseAtParts(s: string, q: nat, oe: nat, c: nat, e: nat, op: string, gap: string, cv: string)
    requires q <= oe && c == oe + |gap| && c <= e <= |s|
    requires s[q..oe] == op && s[c..e] == cv
    requires forall j | oe <= j < c :: s[j] == gap[j - oe]
    requires OpOf(op).Some? && (gap == "" || Blank(gap)) && IsCv(cv) && OperandEnds(s, e)
    ensures ClauseAt(s, q) == Some(ClauseFound(q, e, op, CvNumbers(cv), CvPreRelease(cv)))
  {
    CvHead(cv);
    CvAt(s, c, e, cv);
    GapSkip(s, oe, c, gap);
    OperatorRun(s, q, oe, op);
    CvSlice(s, c, e, cv);
    CvOperand(s, c, e);
    ClauseAtSteps(s, q, oe, c, Operand(e, CvNumbers(cv), CvPreRelease(cv)));
  }

  /** A slice that spells a cv is one. */
  lemma CvSlice(s: string, c: nat, e: nat, cv: string)
    requires c <= e <= |s| && s[c..e] == cv && IsCv(cv)
    ensures IsCv(s[c..e])
  {
  }

  /** The first character of a cv laid out at s[c..e]. */
  lemma CvAt(s: string, c: nat, e: nat, cv: string)
    requires c < e <= |s| && s[c..e] == cv && !IsRegexSpace(cv[0]) && !InClass(cv[0], Operator)
    ensures !IsRegexSpace(s[c]) && !InClass(s[c], Operator)
  {
    assert s[c] == s[c..e][0];
  }

  /** Optional whitespace s[oe..c] before a character that is neither space nor operator. */
  lemma GapSkip(s: string, oe: nat, c: nat, gap: string)
    requires oe <= c < |s| && c == oe + |gap| && (gap == "" || Blank(gap))
    requires forall j | oe <= j < c :: s[j] == gap[j - oe]
    requires !IsRegexSpace(s[c]) && !InClass(s[c], Operator)
    ensures SkipSpace(s, oe) == c && !InClass(s[oe], Operator)
  {
    if gap != "" {
      assert s[oe] == gap[0];
    }
    SkipSpaceAt(s, oe, c);
  }

  /** An operator s[q..oe] that a non-operator character follows is the operator run at q. */
  lemma OperatorRun(s: string, q: nat, oe: nat, op: string)
    requires q <= oe < |s| && s[q..oe] == op && AllIn(op, Operator) && !InClass(s[oe], Operator)
    ensures RunEnd(s, q, Operator) == oe
  {
    forall j | q <= j < oe
      ensures InClass(s[j], Operator)
    {
      assert s[j] == op[j - q];
    }
    RunEndAt(s, q, oe, Operator);
  }

  /** The clause expression at q, read step by step: operator run, spaces, operand. */
  lemma ClauseAtSteps(s: string, q: nat, oe: nat, c: nat, o: Operand)
    requires q <= oe <= |s| && RunEnd(s, q, Operator) == oe && OpOf(s[q..oe]).Some?
    requires SkipSpace(s, oe) == c && OperandAt(s, c) == Some(o)
    ensures ClauseAt(s, q) == Some(ClauseFound(q, o.end, s[q..oe], o.numbers, o.preRelease))
  {
  }

  /** No clause match starts inside a separator that a written clause follows. */
  lemma SeparatorNoClause(s: string, p: nat, q: nat)
    requires p <= q < |s| && InClass(s[q], Operator)
    requires forall j | p <= j < q :: IsRegexSpace(s[j]) || s[j] == ','
    ensures forall j | p <= j < q :: MatchAt(ClauseExpr, s, j).None?
  {
    forall j | p <= j < q
      ensures MatchAt(ClauseExpr, s, j).None?
    {
      var c := SkipSpace(s, j);
      SkipToStop(s, j, q, c);
      NoClauseAt(s, j, c);
    }
  }

  /** Skipping whitespace inside a separator stops at a comma or at the operator after it. */
  lemma SkipToStop(s: string, j: nat, q: nat, c: nat)
    requires j <= q < |s| && InClass(s[q], Operator) && c == SkipSpace(s, j)
    requires forall x | j <= x < q :: IsRegexSpace(s[x]) || s[x] == ','
    ensures c <= q && (s[c] == ',' || InClass(s[c], Operator))
  {
  }

  /** At a separator character, the operator run is empty and no operand follows the skipped spaces. */
  lemma NoClauseAt(s: string, j: nat, c: nat)
    requires j <= c < |s| && c == SkipSpace(s, j) && (s[c] == ',' || InClass(s[c], Operator))
    requires IsRegexSpace(s[j]) || s[j] == ','
    ensures ClauseAt(s, j).None?
  {
    assert RunEnd(s, j, Operator) == j;
    assert s[j..j] == "";
    assert s[c] != 'v' && !InClass(s[c], Wild);
    NoOperandAt(s, c);
  }

  /** No operand starts at a character that is neither 'v' nor one of [0-9|xX*]. */
  lemma NoOperandAt(s: string, c: nat)
    requires c < |s| && s[c] != 'v' && !InClass(s[c], Wild)
    ensures OperandAt(s, c).None?
  {
  }

  /** Positions where nothing matches do not change what FindAllFrom finds. */
  lemma FindAllSkip(pat: Pattern, s: string, p: nat, q: nat)
    requires p <= q <= |s|
    requires forall j | p <= j < q :: MatchAt(pat, s, j).None?
    ensures FindAllFrom(pat, s, p) == FindAllFrom(pat, s, q)
  {
    var t := MatchTable(pat, s);
    forall k | p <= k < q
      ensures t[k].None?
    {
      assert t[k] == MatchAt(pat, s, k);
    }
    FindAllInSkip(t, p, q);
  }

  /**
   * Well-written clauses joined by a separator, from pos on: the scan's
   * matched texts are the clauses themselves, in order.
   */
  lemma {:induction false} ClausesFrom(s: string, pos: nat, ks: seq<Written>, sep: string)
    requires |ks| >= 1 && Separator(sep)
    requires forall i | 0 <= i < |ks| :: WellWritten(ks[i])
    requires pos <= |s| && s[pos..] == Join(Spells(ks), sep)
    ensures Texts(s, FindAllFrom(ClauseExpr, s, pos)) == Spells(ks)
    decreases |ks|
  {
    if |ks| == 1 {
      OnlyClause(s, pos, ks[0]);
    } else {
      var q := pos + |Spell(ks[0])| + |sep|;
      FirstClause(s, pos, ks, sep, q);
      ClausesFrom(s, q, ks[1..], sep);
    }
  }

  /** One well-written clause up to the end of the text: its text is the only one found. */
  lemma OnlyClause(s: string, pos: nat, k: Written)
    requires WellWritten(k) && pos <= |s| && s[pos..] == Spell(k)
    ensures Texts(s, FindAllFrom(ClauseExpr, s, pos)) == [Spell(k)]
  {
    var e := pos + |Spell(k)|;
    var m := ClauseFound(pos, e, k.op, CvNumbers(k.cv), CvPreRelease(k.cv));
    ClauseLast(s, pos, k, e);
    assert Texts(s, [m]) == [Spell(k)];
  }

  /** The first of several joined clauses is found first, and the scan resumes at the next one. */
  lemma FirstClause(s: string, pos: nat, ks: seq<Written>, sep: string, q: nat)
    requires |ks| >= 2 && Separator(sep)
    requires forall i | 0 <= i < |ks| :: WellWritten(ks[i])
    requires pos <= |s| && s[pos..] == Join(Spells(ks), sep)
    requires q == pos + |Spell(ks[0])| + |sep|
    ensures q <= |s| && s[q..] == Join(Spells(ks[1..]), sep)
    ensures forall i | 0 <= i < |ks[1..]| :: WellWritten(ks[1..][i])
    ensures Texts(s, FindAllFrom(ClauseExpr, s, pos))
         == Spells(ks)[..1] + Texts(s, FindAllFrom(ClauseExpr, s, q))
    ensures Spells(ks) == Spells(ks)[..1] + Spells(ks[1..])
  {
    var k := ks[0];
    var e := pos + |Spell(k)|;
    var m := ClauseFound(pos, e, k.op, CvNumbers(k.cv), CvPreRelease(k.cv));
    WrittenCons(ks, sep);
    ClauseThenSeparator(s, pos, k, sep, Join(Spells(ks[1..]), sep), e, q);
    TextsCons(s, m, FindAllFrom(ClauseExpr, s, q));
    assert Spells(ks)[..1] == [Spell(k)];
  }

  /** Several written clauses joined: the first, the separator, and the join of the others. */
  lemma WrittenCons(ks: seq<Written>, sep: string)
    requires |ks| >= 2
    requires forall i | 0 <= i < |ks| :: WellWritten(ks[i])
    ensures Spells(ks) == [Spell(ks[0])] + Spells(ks[1..])
    ensures Join(Spells(ks), sep) == Spell(ks[0]) + sep + Join(Spells(ks[1..]), sep)
    ensures Join(Spells(ks[1..]), sep) != [] && InClass(Join(Spells(ks[1..]), sep)[0], Operator)
    ensures forall i | 0 <= i < |ks[1..]| :: WellWritten(ks[1..][i])
  {
    assert Spells(ks)[1..] == Spells(ks[1..]);
    JoinCons(Spell(ks[0]), Spells(ks[1..]), sep);
    assert [Spell(ks[0])] + Spells(ks[1..]) == Spells(ks);
    WrittenHead(ks[1]);
    assert Spells(ks[1..])[0] == Spell(ks[1]);
    JoinHead(Spells(ks[1..]), sep);
    forall i | 0 <= i < |ks[1..]|
      ensures WellWritten(ks[1..][i])
    {
      assert ks[1..][i] == ks[i + 1];
    }
  }

  /** A last well-written clause that runs to the end of s is the last match. */
  lemma ClauseLast(s: string, pos: nat, k: Written, e: nat)
    requires WellWritten(k) && e == pos + |Spell(k)|
    requires pos <= |s| && s[pos..] == Spell(k)
    ensures e == |s| && s[pos..e] == Spell(k)
    ensures FindAllFrom(ClauseExpr, s, pos) == [ClauseFound(pos, e, k.op, CvNumbers(k.cv), CvPreRelease(k.cv))]
  {
    assert s[pos..e] == s[pos..];
    ClauseAtWritten(s, pos, k, e);
    var t := MatchTable(ClauseExpr, s);
    assert t[pos] == MatchAt(ClauseExpr, s, pos) == ClauseAt(s, pos);
    FindAllInAt(t, pos, pos);
    assert FindAllIn(t, e) == [];
  }

  /** A well-written clause, then a separator, then a further clause: one match, and the scan resumes at q. */
  lemma ClauseThenSeparator(s: string, pos: nat, k: Written, sep: string, rest: string, e: nat, q: nat)
    requires WellWritten(k) && Separator(sep) && rest != [] && InClass(rest[0], Operator)
    requires e == pos + |Spell(k)| && q == e + |sep|
    requires pos <= |s| && s[pos..] == Spell(k) + sep + rest
    ensures q < |s| && s[pos..e] == Spell(k) && s[q..] == rest
    ensures FindAllFrom(ClauseExpr, s, pos)
         == [ClauseFound(pos, e, k.op, CvNumbers(k.cv), CvPreRelease(k.cv))] + FindAllFrom(ClauseExpr, s, q)
  {
    JoinedLayout(s, pos, Spell(k), sep, rest, e, q);
    assert s[e] == sep[0];
    ClauseAtWritten(s, pos, k, e);
    var t := MatchTable(ClauseExpr, s);
    assert t[pos] == MatchAt(ClauseExpr, s, pos) == ClauseAt(s, pos);
    FindAllInAt(t, pos, pos);
    assert s[q] == rest[0];
    SeparatorNoClause(s, e, q);
    FindAllSkip(ClauseExpr, s, e, q);
  }

  /** Where a clause, a separator and the rest sit in s. */
  lemma JoinedLayout(s: string, pos: nat, a: string, sep: string, rest: string, e: nat, q: nat)
    requires e == pos + |a| && q == e + |sep|
    requires pos <= |s| && s[pos..] == a + sep + rest
    ensures q <= |s| && s[pos..e] == a && s[q..] == rest
    ensures forall j | e <= j < q :: s[j] == sep[j - e]
  {
    SliceParts(s, pos, e, q, |s|, a, sep, rest);
  }

  /** A written clause starts with an operator character. */
  lemma WrittenHead(k: Written)
    requires WellWritten(k)
    ensures Spell(k) != [] && InClass(Spell(k)[0], Operator)
  {
    assert AllIn(k.op, Operator);
    assert Spell(k)[0] == k.op[0];
  }

  /** A join starts with its first element. */
  lemma JoinHead(xs: seq<string>, sep: string)
    requires |xs| >= 1 && xs[0] != []
    ensures Join(xs, sep) != [] && Join(xs, sep)[0] == xs[0][0]
  {
  }

  /** The texts of a match and more matches. */
  lemma TextsCons(s: string, m: Found, ms: seq<Found>)
    requires m.start < m.end <= |s|
    requires forall i | 0 <= i < |ms| :: ms[i].start < ms[i].end <= |s|
    ensures Texts(s, [m] + ms) == [s[m.start..m.end]] + Texts(s, ms)
  {
  }

  /**
   * Clauses written one after another, separated by whitespace or by
   * commas, are cut back into exactly those clauses: "> 1.0 < 1.2" and
   * "> 1.0, < 1.2" both give "> 1.0" and "< 1.2".
   */
  lemma SinglesOfWritten(ks: seq<Written>, sep: string)
    requires |ks| >= 1 && Separator(sep)
    requires forall i | 0 <= i < |ks| :: WellWritten(ks[i])
    ensures Singles(Join(Spells(ks), sep)) == Spells(ks)
  {
    var s := Join(Spells(ks), sep);
    assert s[0..] == s;
    ClausesFrom(s, 0, ks, sep);
  }

  // ---------------------------------------------------------------------
  // Texts the validity grammar refuses
  // ---------------------------------------------------------------------

  /** Where an operand can begin: a character of [0-9|xX*], or 'v' followed by one. */
  predicate OperandStart(s: string, c: nat) {
    c < |s| && (InClass(s[c], Wild) || (s[c] == 'v' && c + 1 < |s| && InClass(s[c + 1], Wild)))
  }

  /** Every complete operand begins as OperandStart says. */
  lemma CvStart(t: string)
    ensures IsCv(t) ==> OperandStart(t, 0)
  {
    if IsCv(t) {
      var body := if t != [] && t[0] == 'v' then t[1..] else t;
      var core := Cut(body).core;
      var f := Split(core, ".")[0];
      SplitHeadPrefix(core, ".");
      assert f != "" && InClass(f[0], Wild);
      assert body[0] == core[0] == f[0];
    }
  }

  /**
   * A group whose first clause has an operator outside the table, or no
   * operand start after its operator, is improper: "= abc", ">= bar" and
   * "BAR >= 1.2.3" (where the operator is the empty one).
   */
  lemma LeadingImproper(s: string)
    requires var j := SkipSpace(s, 0);
      j < |s| &&
      var oe := RunEnd(s, j, Operator);
      OpOf(s[j..oe]).None? || !OperandStart(s, SkipSpace(s, oe))
    ensures !Valid(s)
  {
    var j := SkipSpace(s, 0);
    var oe := RunEnd(s, j, Operator);
    var c := SkipSpace(s, oe);
    if OpOf(s[j..oe]).Some? {
      NoCvAt(s, c);
    }
  }

  /** No operand text begins where an operand cannot start. */
  lemma NoCvAt(s: string, c: nat)
    requires c <= |s| && !OperandStart(s, c)
    ensures forall e | c < e <= |s| :: !IsCv(s[c..e])
  {
    forall e | c < e <= |s|
      ensures !IsCv(s[c..e])
    {
      CvStart(s[c..e]);
      assert s[c..e][0] == s[c];
      if e > c + 1 {
        assert s[c..e][1] == s[c + 1];
      }
    }
  }

  lemma ImproperEqualsText()
    ensures !Valid("= abc")
  {
    var s := "= abc";
    assert RunEnd(s, 1, Operator) == 1;
    assert SkipSpace(s, 2) == 2;
    LeadingImproper(s);
  }

  lemma ImproperAtLeastText()
    ensures !Valid(">= bar")
  {
    var s := ">= bar";
    assert RunEnd(s, 2, Operator) == 2;
    assert RunEnd(s, 0, Operator) == 2;
    assert SkipSpace(s, 3) == 3;
    LeadingImproper(s);
  }

  lemma ImproperLeadingText()
    ensures !Valid("BAR >= 1.2.3")
  {
    var s := "BAR >= 1.2.3";
    assert RunEnd(s, 0, Operator) == 0;
    assert SkipSpace(s, 0) == 0;
    LeadingImproper(s);
  }

  /** The second group of "> 1.0 || < foo", which ImproperGroupFails turns into a failure of the whole. */
  lemma ImproperLessThanText()
    ensures !Valid(" < foo")
  {
    var g := " < foo";
    assert SkipSpace(g, 1) == 1;
    assert RunEnd(g, 2, Operator) == 2;
    assert SkipSpace(g, 3) == 3;
    LeadingImproper(g);
  }
}
