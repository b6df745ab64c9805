/**
 * Text helpers shared by every component: the character classes the
 * version grammars use, Go's strings.Split / strings.Join /
 * strings.Replace(.., 1) / strings.TrimSpace / strings.Compare, and the
 * facts about them that the parsers and renderers rely on.
 *
 * Strings are sequences of code points.  Go compares strings byte by byte
 * on their UTF-8 encoding; UTF-8 preserves code-point order, so comparing
 * code points gives the same answer.
 */
module Text {
  import opened Wrappers

  // ---------------------------------------------------------------------
  // Character classes
  // ---------------------------------------------------------------------

  datatype CharClass =
    | Digits        // [0-9]
    | Ident         // [0-9A-Za-z-]      SemVer identifiers, constraint pre-release/build
    | RelaxedIdent  // [0-9A-Za-z-~]     relaxed pre-release/build
    | Wild          // [0-9|xX*]         constraint version segments (the '|' is literal)
    | Operator      // [=!<>~^]          characters of the constraint operators
    | Numeric       // [0-9.]            the number part of a relaxed version

  predicate IsDigit(c: char) { '0' <= c <= '9' }

  predicate IsLetter(c: char) { 'a' <= c <= 'z' || 'A' <= c <= 'Z' }

  predicate InClass(c: char, k: CharClass) {
    match k
    case Digits => IsDigit(c)
    case Ident => IsDigit(c) || IsLetter(c) || c == '-'
    case RelaxedIdent => IsDigit(c) || IsLetter(c) || c == '-' || c == '~'
    case Wild => IsDigit(c) || c == '|' || c == 'x' || c == 'X' || c == '*'
    case Operator => c == '=' || c == '!' || c == '<' || c == '>' || c == '~' || c == '^'
    case Numeric => IsDigit(c) || c == '.'
  }

  predicate AllIn(s: string, k: CharClass) {
    forall i | 0 <= i < |s| :: InClass(s[i], k)
  }

  /** The characters of the regular-expression class \s in Go's RE2 syntax. */
  predicate IsRegexSpace(c: char) {
    c == ' ' || c == '\t' || c == '\n' || c == '\r' || c == '\U{000C}'
  }

  /** Text made of \s characters only. */
  predicate AllSpace(t: string) {
    forall j | 0 <= j < |t| :: IsRegexSpace(t[j])
  }

  /** unicode.IsSpace, used by strings.TrimSpace. */
  predicate IsUnicodeSpace(c: char) {
    || c == ' ' || c == '\t' || c == '\n' || c == '\r' || c == '\U{000B}' || c == '\U{000C}'
    || c == '\U{0085}' || c == '\U{00A0}' || c == '\U{1680}'
    || ('\U{2000}' <= c <= '\U{200A}')
    || c == '\U{2028}' || c == '\U{2029}' || c == '\U{202F}' || c == '\U{205F}' || c == '\U{3000}'
  }

  // ---------------------------------------------------------------------
  // Searching
  // ---------------------------------------------------------------------

  predicate Occurs(s: string, sep: string, k: nat) {
    k + |sep| <= |s| && s[k..k + |sep|] == sep
  }

  /** strings.Index from position i onwards. */
  function IndexFrom(s: string, sep: string, i: nat): (r: Option<nat>)
    requires |sep| > 0
    ensures r.Some? ==> i <= r.value && Occurs(s, sep, r.value)
    ensures r.Some? ==> forall k | i <= k < r.value :: !Occurs(s, sep, k)
    ensures r.None? ==> forall k | i <= k :: !Occurs(s, sep, k)
    decreases |s| - i
  {
    if i + |sep| > |s| then None
    else if s[i..i + |sep|] == sep then Some(i)
    else IndexFrom(s, sep, i + 1)
  }

  function IndexOf(s: string, sep: string): (r: Option<nat>)
    requires |sep| > 0
    ensures r.Some? ==> Occurs(s, sep, r.value)
    ensures r.Some? ==> forall k | 0 <= k < r.value :: !Occurs(s, sep, k)
    ensures r.None? ==> forall k :: !Occurs(s, sep, k)
  {
    IndexFrom(s, sep, 0)
  }

  lemma OccursChar(s: string, c: char, k: nat)
    ensures Occurs(s, [c], k) <==> k < |s| && s[k] == c
  {
    if k < |s| && s[k] == c {
      assert s[k..k + 1] == [c];
    }
  }

  /** The first occurrence of a character, if any. */
  lemma IndexOfChar(s: string, c: char)
    ensures IndexOf(s, [c]).None? <==> c !in s
    ensures IndexOf(s, [c]).Some? ==>
      var k := IndexOf(s, [c]).value; k < |s| && s[k] == c && c !in s[..k]
  {
    var r := IndexOf(s, [c]);
    if r.Some? {
      OccursChar(s, c, r.value);
      forall j | 0 <= j < r.value
        ensures s[..r.value][j] != c
      {
        OccursChar(s, c, j);
      }
    } else {
      forall j | 0 <= j < |s|
        ensures s[j] != c
      {
        OccursChar(s, c, j);
      }
    }
  }

  lemma IndexOfCharNone(s: string, c: char)
    requires c !in s
    ensures IndexOf(s, [c]) == None
  {
    var r := IndexOf(s, [c]);
    if r.Some? {
      OccursChar(s, c, r.value);
    }
  }

  lemma IndexOfCharAt(a: string, c: char, b: string)
    requires c !in a
    ensures IndexOf(a + [c] + b, [c]) == Some(|a|)
  {
    var s := a + [c] + b;
    OccursChar(s, c, |a|);
    var r := IndexOf(s, [c]);
    assert r.Some?;
    if r.value < |a| {
      OccursChar(s, c, r.value);
    }
  }

  // ---------------------------------------------------------------------
  // Split and Join
  // ---------------------------------------------------------------------

  /** strings.Split with a non-empty separator: always at least one field. */
  function Split(s: string, sep: string): (r: seq<string>)
    requires |sep| > 0
    ensures |r| >= 1
    decreases |s|
  {
    match IndexOf(s, sep)
    case None => [s]
    case Some(k) => [s[..k]] + Split(s[k + |sep|..], sep)
  }

  /** strings.Join for a non-empty list. */
  function Join(xs: seq<string>, sep: string): string
    requires |xs| >= 1
  {
    if |xs| == 1 then xs[0] else xs[0] + sep + Join(xs[1..], sep)
  }

  lemma JoinCons(x: string, tail: seq<string>, sep: string)
    requires |tail| >= 1
    ensures Join([x] + tail, sep) == x + sep + Join(tail, sep)
  {
    assert ([x] + tail)[1..] == tail;
  }

  lemma {:induction false} JoinSnoc(xs: seq<string>, x: string, sep: string)
    requires |xs| >= 1
    ensures Join(xs + [x], sep) == Join(xs, sep) + sep + x
    decreases |xs|
  {
    if |xs| == 1 {
      JoinCons(xs[0], [x], sep);
      assert xs + [x] == [xs[0]] + [x];
    } else {
      assert (xs + [x])[1..] == xs[1..] + [x];
      JoinSnoc(xs[1..], x, sep);
    }
  }

  /** Fields and separator from one class give a joined text from that class. */
  lemma {:induction false} JoinAllIn(xs: seq<string>, sep: string, k: CharClass)
    requires |xs| >= 1 && AllIn(sep, k)
    requires forall i | 0 <= i < |xs| :: AllIn(xs[i], k)
    ensures AllIn(Join(xs, sep), k)
    decreases |xs|
  {
    if |xs| > 1 {
      JoinAllIn(xs[1..], sep, k);
      var t := Join(xs[1..], sep);
      var s := xs[0] + sep + t;
      forall i | 0 <= i < |s|
        ensures InClass(s[i], k)
      {
        if i < |xs[0]| {
          assert s[i] == xs[0][i];
        } else if i < |xs[0]| + |sep| {
          assert s[i] == sep[i - |xs[0]|];
        } else {
          assert s[i] == t[i - |xs[0]| - |sep|];
        }
      }
    }
  }

  /** A text without a dot is one field. */
  lemma SplitNoDot(a: string)
    requires '.' !in a
    ensures Split(a, ".") == [a]
  {
    IndexOfCharNone(a, '.');
  }

  /** The first field ends at the first dot. */
  lemma SplitAtDot(a: string, b: string)
    requires '.' !in a
    ensures Split(a + "." + b, ".") == [a] + Split(b, ".")
  {
    var s := a + "." + b;
    IndexOfCharAt(a, '.', b);
    assert s[..|a|] == a && s[|a| + 1..] == b;
  }

  lemma SplitEmpty(sep: string)
    requires |sep| > 0
    ensures Split("", sep) == [""] && Split("", sep)[0] == ""
  {
  }

  lemma {:induction false} JoinSplit(s: string, sep: string)
    requires |sep| > 0
    ensures Join(Split(s, sep), sep) == s
    decreases |s|
  {
    var idx := IndexOf(s, sep);
    if idx.Some? {
      var k := idx.value;
      var head, rest := s[..k], s[k + |sep|..];
      var fields := Split(rest, sep);
      assert Split(s, sep) == [head] + fields;
      JoinSplit(rest, sep);
      JoinCons(head, fields, sep);
      assert s == head + sep + rest by {
        assert Occurs(s, sep, k);
        SliceThree(s, k, k + |sep|);
      }
    }
  }

  lemma SliceThree(s: string, i: nat, j: nat)
    requires i <= j <= |s|
    ensures s == s[..i] + s[i..j] + s[j..]
  {
  }

  /** No field produced by splitting on a character contains that character. */
  lemma {:induction false} SplitFieldsLackSeparator(s: string, c: char)
    ensures forall f | f in Split(s, [c]) :: c !in f
    decreases |s|
  {
    match IndexOf(s, [c])
    case None =>
      if c in s {
        var k :| 0 <= k < |s| && s[k] == c;
        OccursChar(s, c, k);
      }
    case Some(k) =>
      SplitFieldsLackSeparator(s[k + 1..], c);
      if c in s[..k] {
        var j :| 0 <= j < k && s[..k][j] == c;
        OccursChar(s, c, j);
      }
  }

  /** Splitting a join of separator-free fields gives the fields back. */
  lemma {:induction false} SplitJoin(xs: seq<string>, c: char)
    requires |xs| >= 1
    requires forall i | 0 <= i < |xs| :: c !in xs[i]
    ensures Split(Join(xs, [c]), [c]) == xs
    decreases |xs|
  {
    if |xs| == 1 {
      IndexOfCharNone(xs[0], c);
    } else {
      var rest := Join(xs[1..], [c]);
      IndexOfCharAt(xs[0], c, rest);
      var s := xs[0] + [c] + rest;
      assert s[|xs[0]| + 1..] == rest;
      assert s[..|xs[0]|] == xs[0];
      SplitJoin(xs[1..], c);
    }
  }

  /** A character that no field and not the separator holds is not in the join. */
  lemma {:induction false} JoinLacks(xs: seq<string>, sep: string, c: char)
    requires |xs| >= 1 && c !in sep
    requires forall i | 0 <= i < |xs| :: c !in xs[i]
    ensures c !in Join(xs, sep)
    decreases |xs|
  {
    if |xs| > 1 {
      JoinLacks(xs[1..], sep, c);
    }
  }

  /** The first field of a split is a prefix of the text. */
  lemma SplitHeadPrefix(s: string, sep: string)
    requires |sep| > 0
    ensures Split(s, sep)[0] <= s
  {
  }

  /** A field of a character split lies inside the text. */
  lemma {:induction false} SplitFieldsFrom(s: string, c: char, x: char)
    requires x !in s
    ensures forall i | 0 <= i < |Split(s, [c])| :: x !in Split(s, [c])[i]
    decreases |s|
  {
    match IndexOf(s, [c])
    case None =>
    case Some(k) =>
      assert forall y | y in s[k + 1..] :: y in s;
      assert forall y | y in s[..k] :: y in s;
      SplitFieldsFrom(s[k + 1..], c, x);
  }

  function CountChar(s: string, c: char): (n: nat)
    ensures n <= |s|
  {
    if s == [] then 0 else (if s[0] == c then 1 else 0) + CountChar(s[1..], c)
  }

  lemma {:induction false} CountCharAppend(a: string, b: string, c: char)
    ensures CountChar(a + b, c) == CountChar(a, c) + CountChar(b, c)
    decreases |a|
  {
    if a != [] {
      assert (a + b)[1..] == a[1..] + b;
      CountCharAppend(a[1..], b, c);
    } else {
      assert a + b == b;
    }
  }

  lemma {:induction false} CountCharAbsent(s: string, c: char)
    requires c !in s
    ensures CountChar(s, c) == 0
    decreases |s|
  {
    if s != [] {
      assert s[0] in s;
      assert forall x | x in s[1..] :: x in s;
      CountCharAbsent(s[1..], c);
    }
  }

  /** Splitting on a character yields one more field than there are separators. */
  lemma {:induction false} SplitCount(s: string, c: char)
    ensures |Split(s, [c])| == CountChar(s, c) + 1
    decreases |s|
  {
    SplitFieldsLackSeparator(s, c);
    match IndexOf(s, [c])
    case None =>
      assert Split(s, [c]) == [s];
      CountCharAbsent(s, c);
    case Some(k) =>
      OccursChar(s, c, k);
      SplitCount(s[k + 1..], c);
      assert s[..k] in Split(s, [c]);
      CountCharAbsent(s[..k], c);
      assert s == s[..k] + ([c] + s[k + 1..]);
      CountCharAppend(s[..k], [c] + s[k + 1..], c);
      CountCharAppend([c], s[k + 1..], c);
  }

  /** The last character of a join is the last character of its last field. */
  lemma {:induction false} JoinLast(xs: seq<string>, sep: string)
    requires |xs| >= 1 && xs[|xs| - 1] != ""
    ensures var s := Join(xs, sep); s != "" && s[|s| - 1] == xs[|xs| - 1][|xs[|xs| - 1]| - 1]
    decreases |xs|
  {
    if |xs| > 1 {
      JoinLast(xs[1..], sep);
    }
  }

  /** Dot-separated non-empty fields never end with a dot. */
  lemma DotFieldsEnd(s: string, k: CharClass)
    requires DotFields(s, k)
    ensures s != "" && s[|s| - 1] != '.'
  {
    var fs := Split(s, ".");
    JoinSplit(s, ".");
    JoinLast(fs, ".");
    SplitFieldsLackSeparator(s, '.');
    assert fs[|fs| - 1] in fs;
  }

  /** Every field obtained by splitting s on '.' is non-empty and drawn from class k. */
  predicate DotFields(s: string, k: CharClass) {
    var fs := Split(s, ".");
    forall i | 0 <= i < |fs| :: fs[i] != "" && AllIn(fs[i], k)
  }

  /** One non-empty class-k field without a dot. */
  lemma DotFieldsOne(a: string, k: CharClass)
    requires a != "" && AllIn(a, k) && '.' !in a
    ensures DotFields(a, k)
  {
    IndexOfCharNone(a, '.');
  }

  /** A field, a dot and more fields are fields. */
  lemma DotFieldsCons(a: string, b: string, k: CharClass)
    requires a != "" && AllIn(a, k) && '.' !in a && DotFields(b, k)
    ensures DotFields(a + "." + b, k)
  {
    IndexOfCharAt(a, '.', b);
    var s := a + "." + b;
    assert s[..|a|] == a && s[|a| + 1..] == b;
    assert Split(s, ".") == [a] + Split(b, ".");
  }

  /** A character outside the fields' class, other than the dot, is not in the text. */
  lemma DotFieldsLack(s: string, k: CharClass, c: char)
    requires !InClass(c, k) && c != '.'
    requires forall i | 0 <= i < |Split(s, ".")| :: AllIn(Split(s, ".")[i], k)
    ensures c !in s
  {
    var fs := Split(s, ".");
    JoinSplit(s, ".");
    JoinLacks(fs, ".", c);
  }

  // ---------------------------------------------------------------------
  // Cutting a version text into number fields, pre-release and build
  // ---------------------------------------------------------------------

  /** The text split at the first '+', then the part before it at the first '-'. */
  datatype Pieces = Pieces(core: string, pre: Option<string>, build: Option<string>)

  function CutAt(s: string, c: char): (r: (string, Option<string>))
    ensures r.1.None? ==> r.0 == s && c !in s
    ensures r.1.Some? ==> s == r.0 + [c] + r.1.value && c !in r.0
  {
    IndexOfChar(s, c);
    match IndexOf(s, [c])
    case None => (s, None)
    case Some(k) =>
      assert s == s[..k] + [c] + s[k + 1..];
      (s[..k], Some(s[k + 1..]))
  }

  lemma CutAtNone(s: string, c: char)
    requires c !in s
    ensures CutAt(s, c) == (s, None)
  {
    IndexOfCharNone(s, c);
  }

  lemma CutAtFirst(a: string, c: char, b: string)
    requires c !in a
    ensures CutAt(a + [c] + b, c) == (a, Some(b))
  {
    var s := a + [c] + b;
    IndexOfCharAt(a, c, b);
    assert s[..|a|] == a && s[|a| + 1..] == b;
  }

  /** Both pieces of a text that lacks d lack d. */
  lemma CutAtLacks(s: string, c: char, d: char)
    requires d !in s
    ensures d !in CutAt(s, c).0
    ensures CutAt(s, c).1.Some? ==> d !in CutAt(s, c).1.value
  {
    var r := CutAt(s, c);
    if r.1.Some? {
      assert s == r.0 + [c] + r.1.value;
      assert forall x | x in r.0 :: x in s;
      assert forall x | x in r.1.value :: x in s;
    }
  }

  function Cut(s: string): (p: Pieces)
    ensures '+' !in p.core && '-' !in p.core
    ensures p.pre.Some? ==> '+' !in p.pre.value
    ensures s == p.core + (if p.pre.Some? then "-" + p.pre.value else "")
                        + (if p.build.Some? then "+" + p.build.value else "")
  {
    var (head, build) := CutAt(s, '+');
    var (core, pre) := CutAt(head, '-');
    CutAtLacks(head, '-', '+');
    Pieces(core, pre, build)
  }

  /** Cutting a rendered text recovers its pieces. */
  lemma CutRendered(core: string, pre: string, build: string)
    requires '+' !in core && '-' !in core && '+' !in pre
    ensures Cut(core + (if pre != "" then "-" + pre else "") + (if build != "" then "+" + build else ""))
         == Pieces(core, if pre != "" then Some(pre) else None, if build != "" then Some(build) else None)
  {
    var head := core + (if pre != "" then "-" + pre else "");
    CutRenderedAt(core, '-', pre);
    assert '+' !in head;
    CutRenderedAt(head, '+', build);
  }

  /** Cutting a + (if t != "" then [c] + t else "") at c, where a lacks c, gives back a and t. */
  lemma CutRenderedAt(a: string, c: char, t: string)
    requires c !in a
    ensures CutAt(a + (if t != "" then [c] + t else ""), c) == (a, if t != "" then Some(t) else None)
  {
    if t != "" {
      assert a + ([c] + t) == a + [c] + t;
      CutAtFirst(a, c, t);
    } else {
      assert a + "" == a;
      CutAtNone(a, c);
    }
  }

  // ---------------------------------------------------------------------
  // Scanning helpers
  // ---------------------------------------------------------------------

  /** End of the longest run of class-k characters starting at i. */
  function RunEnd(s: string, i: nat, k: CharClass): (e: nat)
    requires i <= |s|
    ensures i <= e <= |s|
    ensures AllIn(s[i..e], k)
    ensures e < |s| ==> !InClass(s[e], k)
    decreases |s| - i
  {
    if i < |s| && InClass(s[i], k) then RunEnd(s, i + 1, k) else i
  }

  /** The run from i ends where the class-k text a ends when b does not continue it. */
  lemma RunEndConcat(a: string, b: string, k: CharClass)
    requires AllIn(a, k) && (b == [] || !InClass(b[0], k))
    ensures RunEnd(a + b, 0, k) == |a|
  {
    if b != [] {
      assert (a + b)[|a|] == b[0];
    }
    RunEndAt(a + b, 0, |a|, k);
  }

  /** The run from i ends at e when s[i..e] is in class k and s[e] is not. */
  lemma {:induction false} RunEndAt(s: string, i: nat, e: nat, k: CharClass)
    requires i <= e <= |s|
    requires forall j | i <= j < e :: InClass(s[j], k)
    requires e < |s| ==> !InClass(s[e], k)
    ensures RunEnd(s, i, k) == e
    decreases e - i
  {
    if i < e {
      RunEndAt(s, i + 1, e, k);
    }
  }

  /** The \s run from i ends at e when s[i..e] is all \s and s[e] is not. */
  lemma {:induction false} SkipSpaceAt(s: string, i: nat, e: nat)
    requires i <= e <= |s|
    requires forall j | i <= j < e :: IsRegexSpace(s[j])
    requires e < |s| ==> !IsRegexSpace(s[e])
    ensures SkipSpace(s, i) == e
    decreases e - i
  {
    if i < e {
      SkipSpaceAt(s, i + 1, e);
    }
  }

  /** End of the longest run of \s characters starting at i. */
  function SkipSpace(s: string, i: nat): (e: nat)
    requires i <= |s|
    ensures i <= e <= |s|
    ensures AllSpace(s[i..e])
    ensures e < |s| ==> !IsRegexSpace(s[e])
    decreases |s| - i
  {
    if i < |s| && IsRegexSpace(s[i]) then SkipSpace(s, i + 1) else i
  }

  /** s with trailing \s characters removed. */
  function TrimRightSpace(s: string): (r: string)
    ensures r <= s
    ensures r == [] || !IsRegexSpace(r[|r| - 1])
    ensures forall j | |r| <= j < |s| :: IsRegexSpace(s[j])
  {
    if s != [] && IsRegexSpace(s[|s| - 1]) then TrimRightSpace(s[..|s| - 1]) else s
  }

  /** strings.TrimSpace. */
  function TrimSpace(s: string): (r: string)
    ensures |r| <= |s|
    ensures r != [] ==> !IsUnicodeSpace(r[0]) && !IsUnicodeSpace(r[|r| - 1])
    ensures (forall j | 0 <= j < |s| :: IsUnicodeSpace(s[j])) ==> r == []
    decreases |s|
  {
    if s == [] then s
    else if IsUnicodeSpace(s[0]) then TrimSpace(s[1..])
    else if IsUnicodeSpace(s[|s| - 1]) then TrimSpace(s[..|s| - 1])
    else s
  }

  /** Where s is cut: before a is a run of spaces, and from b on another one. */
  predicate TrimmedAt(s: string, a: nat, b: nat) {
    && a <= b <= |s|
    && (forall j | 0 <= j < a :: IsUnicodeSpace(s[j]))
    && (forall j | b <= j < |s| :: IsUnicodeSpace(s[j]))
  }

  /** A leading space moves both cut points of the rest one to the right. */
  lemma TrimmedShift(s: string, a: nat, b: nat)
    requires s != [] && IsUnicodeSpace(s[0]) && TrimmedAt(s[1..], a, b)
    ensures TrimmedAt(s, a + 1, b + 1) && s[1..][a..b] == s[a + 1..b + 1]
  {
    var t := s[1..];
    forall j | 0 < j < a + 1
      ensures IsUnicodeSpace(s[j])
    {
      assert s[j] == t[j - 1];
    }
    forall j | b + 1 <= j < |s|
      ensures IsUnicodeSpace(s[j])
    {
      assert s[j] == t[j - 1];
    }
  }

  /** A trailing space keeps the cut points of the rest. */
  lemma TrimmedDrop(s: string, a: nat, b: nat)
    requires s != [] && IsUnicodeSpace(s[|s| - 1]) && TrimmedAt(s[..|s| - 1], a, b)
    ensures TrimmedAt(s, a, b) && s[..|s| - 1][a..b] == s[a..b]
  {
    var t := s[..|s| - 1];
    forall j | 0 <= j < a
      ensures IsUnicodeSpace(s[j])
    {
      assert s[j] == t[j];
    }
    forall j | b <= j < |t|
      ensures IsUnicodeSpace(s[j])
    {
      assert s[j] == t[j];
    }
  }

  /** TrimSpace keeps the slice of s between a leading and a trailing run of spaces. */
  lemma {:induction false} TrimSpaceSlice(s: string)
    ensures exists a: nat, b: nat | TrimmedAt(s, a, b) :: TrimSpace(s) == s[a..b]
    decreases |s|
  {
    if s == [] {
      assert TrimmedAt(s, 0, 0) && TrimSpace(s) == s[0..0];
    } else if IsUnicodeSpace(s[0]) {
      TrimSpaceSlice(s[1..]);
      var a: nat, b: nat :| TrimmedAt(s[1..], a, b) && TrimSpace(s[1..]) == s[1..][a..b];
      TrimmedShift(s, a, b);
    } else if IsUnicodeSpace(s[|s| - 1]) {
      TrimSpaceSlice(s[..|s| - 1]);
      var a: nat, b: nat :| TrimmedAt(s[..|s| - 1], a, b) && TrimSpace(s[..|s| - 1]) == s[..|s| - 1][a..b];
      TrimmedDrop(s, a, b);
    } else {
      assert TrimmedAt(s, 0, |s|) && TrimSpace(s) == s[0..|s|];
    }
  }

  /** strings.Replace(s, old, new, 1): the first occurrence of old is replaced. */
  function ReplaceFirst(s: string, pattern: string, repl: string): (r: string)
    requires |pattern| > 0
    ensures IndexOf(s, pattern).None? ==> r == s
    ensures IndexOf(s, pattern).Some? ==>
      var k := IndexOf(s, pattern).value; r == s[..k] + repl + s[k + |pattern|..]
  {
    match IndexOf(s, pattern)
    case None => s
    case Some(k) => s[..k] + repl + s[k + |pattern|..]
  }

  // ---------------------------------------------------------------------
  // strings.Compare
  // ---------------------------------------------------------------------

  /** Lexicographic three-way comparison of two strings. */
  function StrCompare(a: string, b: string): (r: int)
    ensures -1 <= r <= 1
    ensures r == 0 <==> a == b
  {
    if a == [] && b == [] then 0
    else if a == [] then -1
    else if b == [] then 1
    else if a[0] < b[0] then -1
    else if b[0] < a[0] then 1
    else
      var r := StrCompare(a[1..], b[1..]);
      assert r == 0 ==> a == [a[0]] + a[1..] && b == [b[0]] + b[1..];
      r
  }

  lemma {:induction false} StrCompareAntisymmetric(a: string, b: string)
    ensures StrCompare(a, b) == -StrCompare(b, a)
    decreases |a|
  {
    if a != [] && b != [] && a[0] == b[0] {
      StrCompareAntisymmetric(a[1..], b[1..]);
    }
  }

  lemma {:induction false} StrCompareTransitive(a: string, b: string, c: string)
    requires StrCompare(a, b) <= 0 && StrCompare(b, c) <= 0
    ensures StrCompare(a, c) <= 0
    decreases |a|
  {
    if a != [] && b != [] && c != [] && a[0] == b[0] && b[0] == c[0] {
      StrCompareTransitive(a[1..], b[1..], c[1..]);
    }
  }
}
