/**
 * Decimal text and the numeric parsers the segment layer wraps:
 * strconv.ParseUint(s, 10, 64), strconv.ParseInt(s, 10, 64) and
 * big.Int.SetString(s, 10), plus decimal rendering of unsigned values.
 */
module Decimal {
  import opened Wrappers
  import opened Text

  const MaxUint64: nat := 0xFFFF_FFFF_FFFF_FFFF
  const MinInt64: int := -0x8000_0000_0000_0000
  const MaxInt64: int := 0x7FFF_FFFF_FFFF_FFFF

  type u64 = n: nat | n <= MaxUint64
  type i64 = n: int | MinInt64 <= n <= MaxInt64

  /** The two failure kinds of the strconv parsers. */
  datatype NumError = ErrSyntax | ErrRange

  function DigitValue(c: char): (d: nat)
    requires IsDigit(c)
    ensures d < 10
  {
    c as int - '0' as int
  }

  function DigitChar(d: nat): (c: char)
    requires d < 10
    ensures IsDigit(c) && DigitValue(c) == d
  {
    ('0' as int + d) as char
  }

  /** The value of a run of decimal digits (leading zeros allowed). */
  function Value(s: string): nat
    requires AllIn(s, Digits)
  {
    if s == [] then 0 else Value(s[..|s| - 1]) * 10 + DigitValue(s[|s| - 1])
  }

  /** Canonical decimal text: digits only, and no leading zero unless the text is "0". */
  predicate Canonical(s: string) {
    s != [] && AllIn(s, Digits) && (s[0] == '0' ==> |s| == 1)
  }

  /** The canonical decimal rendering of n (what fmt's %d prints for an unsigned value). */
  function Dec(n: nat): (r: string)
    ensures Canonical(r)
    ensures Value(r) == n
  {
    if n < 10 then [DigitChar(n)]
    else
      var p := Dec(n / 10);
      var r := p + [DigitChar(n % 10)];
      assert r[..|r| - 1] == p;
      r
  }

  lemma {:induction false} ValueLeadingDigit(s: string)
    requires s != [] && AllIn(s, Digits) && s[0] != '0'
    ensures Value(s) >= 1
    decreases |s|
  {
    if |s| > 1 {
      ValueLeadingDigit(s[..|s| - 1]);
    }
  }

  /** Rendering the value of canonical text gives the text back. */
  lemma {:induction false} DecValue(s: string)
    requires Canonical(s)
    ensures Dec(Value(s)) == s
    decreases |s|
  {
    if |s| > 1 {
      var p := s[..|s| - 1];
      var c := s[|s| - 1];
      assert Canonical(p);
      ValueLeadingDigit(p);
      DecValue(p);
      DecAppend(Value(p), DigitValue(c));
      assert DigitChar(DigitValue(c)) == c;
      assert s == p + [c];
    }
  }

  /** Appending a digit to a positive value appends its character to the rendering. */
  lemma DecAppend(m: nat, d: nat)
    requires m >= 1 && d < 10
    ensures Dec(m * 10 + d) == Dec(m) + [DigitChar(d)]
  {
    var n := m * 10 + d;
    assert n / 10 == m && n % 10 == d;
  }

  lemma {:induction false} ValuePrefix(s: string, i: nat)
    requires AllIn(s, Digits) && i <= |s|
    ensures Value(s[..i]) <= Value(s)
    decreases |s|
  {
    if i < |s| {
      assert s[..|s| - 1][..i] == s[..i];
      ValuePrefix(s[..|s| - 1], i);
    } else {
      assert s[..i] == s;
    }
  }

  /** The digit loop of strconv.ParseUint, from position i with accumulated value acc. */
  function ParseUintFrom(s: string, i: nat, acc: nat): Result<u64, NumError>
    requires i <= |s| && acc <= MaxUint64
    decreases |s| - i
  {
    if i == |s| then Success(acc)
    else if !IsDigit(s[i]) then Failure(ErrSyntax)
    else
      var n := acc * 10 + DigitValue(s[i]);
      if n > MaxUint64 then Failure(ErrRange) else ParseUintFrom(s, i + 1, n)
  }

  lemma {:induction false} ParseUintFromCorrect(s: string, i: nat)
    requires i <= |s| && AllIn(s[..i], Digits) && Value(s[..i]) <= MaxUint64
    ensures var r := ParseUintFrom(s, i, Value(s[..i]));
      && (r.Success? <==> AllIn(s, Digits) && Value(s) <= MaxUint64)
      && (r.Success? ==> r.value == Value(s))
      && (r.Failure? && AllIn(s, Digits) ==> r.error == ErrRange)
    decreases |s| - i
  {
    if i == |s| {
      assert s[..i] == s;
    } else if !IsDigit(s[i]) {
    } else {
      assert s[..i + 1][..i] == s[..i];
      assert AllIn(s[..i + 1], Digits);
      if Value(s[..i + 1]) > MaxUint64 {
        if AllIn(s, Digits) {
          ValuePrefix(s, i + 1);
        }
      } else {
        ParseUintFromCorrect(s, i + 1);
      }
    }
  }

  /** strconv.ParseUint(s, 10, 64). */
  function ParseUint(s: string): (r: Result<u64, NumError>)
    ensures r.Success? <==> s != [] && AllIn(s, Digits) && Value(s) <= MaxUint64
    ensures r.Success? ==> r.value == Value(s)
    ensures r.Failure? && s != [] && AllIn(s, Digits) ==> r.error == ErrRange
  {
    if s == [] then Failure(ErrSyntax)
    else
      assert s[..0] == [];
      ParseUintFromCorrect(s, 0);
      ParseUintFrom(s, 0, 0)
  }

  /** The text after an optional leading '+' or '-'. */
  function Unsigned(s: string): (b: string)
    ensures |b| <= |s|
  {
    if s != [] && (s[0] == '+' || s[0] == '-') then s[1..] else s
  }

  /** An optional sign followed by at least one decimal digit. */
  predicate SignedDigits(s: string) {
    Unsigned(s) != [] && AllIn(Unsigned(s), Digits)
  }

  function SignedValue(s: string): int
    requires SignedDigits(s)
  {
    if s[0] == '-' then -(Value(Unsigned(s)) as int) else Value(Unsigned(s))
  }

  /** strconv.ParseInt(s, 10, 64): a sign, then ParseUint, then the int64 range check. */
  function ParseInt(s: string): (r: Result<i64, NumError>)
    ensures r.Success? <==> SignedDigits(s) && MinInt64 <= SignedValue(s) <= MaxInt64
    ensures r.Success? ==> r.value == SignedValue(s)
    ensures r.Failure? && SignedDigits(s) ==> r.error == ErrRange
  {
    if s == [] then Failure(ErrSyntax)
    else
      var neg := s[0] == '-';
      match ParseUint(Unsigned(s))
      case Failure(e) => Failure(e)
      case Success(u) =>
        if !neg && u > MaxInt64 then Failure(ErrRange)
        else if neg && u > -MinInt64 then Failure(ErrRange)
        else Success(if neg then -(u as int) else u as int)
  }

  /** big.Int.SetString(s, 10): an optional sign and a non-empty digit run, of any size. */
  function ParseBig(s: string): (r: Option<int>)
    ensures r.Some? <==> SignedDigits(s)
    ensures r.Some? ==> r.value == SignedValue(s)
  {
    if SignedDigits(s) then Some(SignedValue(s)) else None
  }

  /** Decimal renderings hold digits only. */
  lemma DecLacks(n: nat, c: char)
    requires !IsDigit(c)
    ensures c !in Dec(n)
  {
  }
}
