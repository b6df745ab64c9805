/**
 * One dot-separated segment of a version (package part): a tagged union
 * of an unsigned or signed 64-bit number, an unbounded integer or a
 * string, each with its own hand-written three-way Compare and IsNull.
 *
 * PreStr, Any and Empty are variants that BigInt's Compare refers to but
 * whose own code is not part of this model; they carry no behaviour here
 * beyond what BigInt's Compare does with them.
 */
module Part {
  import opened Wrappers
  import opened Text
  import opened Decimal

  datatype Part =
    | Uint64(u: u64)
    | Int64(i: i64)
    | BigInt(n: int)
    | Str(s: string)
    | PreStr(pre: string)
    | Any
    | Empty(isAny: bool)

  /** The variants whose own methods are modelled. */
  predicate Shown(p: Part) {
    p.Uint64? || p.Int64? || p.BigInt? || p.Str?
  }

  /** The variants NewPart can produce. */
  predicate Plain(p: Part) {
    p.Uint64? || p.Str?
  }

  /**
   * Whether p.Compare(other) returns instead of panicking (None is a nil
   * Part).  Int64 and Uint64 panic on each other and on any variant their
   * type switch does not list; BigInt panics on Int64.
   */
  predicate Defined(p: Part, other: Option<Part>) {
    match p
    case Uint64(_) => other.None? || other.value.Uint64? || other.value.Str?
    case Int64(_) => other.None? || other.value.Int64? || other.value.Str?
    case BigInt(_) => other.None? || !other.value.Int64?
    case Str(_) => true
    case _ => false
  }

  /** Sign of a - b. */
  function Cmp(a: int, b: int): (r: int)
    ensures r == 0 <==> a == b
    ensures r < 0 <==> a < b
    ensures -1 <= r <= 1
  {
    if a < b then -1 else if a == b then 0 else 1
  }

  /** Go's int64(o) conversion of a uint64: values from 2^63 up wrap to negatives. */
  function Int64Cast(u: u64): (r: i64)
    ensures r % 0x1_0000_0000_0000_0000 == u
    ensures u <= MaxInt64 ==> r == u
    ensures u > MaxInt64 ==> r < 0
  {
    if u <= MaxInt64 then u else u - 0x1_0000_0000_0000_0000
  }

  /** p.Compare(other): -1, 0 or 1. */
  function Compare(p: Part, other: Option<Part>): (r: int)
    requires Defined(p, other)
    ensures -1 <= r <= 1
    ensures other.None? ==> r == 1
    ensures other == Some(p) ==> r == 0
  {
    if other.None? then 1
    else
      var o := other.value;
      match p
      case Uint64(a) =>
        if o == p then 0
        else if o.Uint64? then (if a < o.u then -1 else 1)
        else -1
      case Int64(a) =>
        if o == p then 0
        else if o.Int64? then (if a < o.i then -1 else 1)
        else -1
      case BigInt(a) =>
        (match o
         case Uint64(b) => Cmp(a, Int64Cast(b))
         case BigInt(b) => Cmp(a, b)
         case Str(_) => -1
         case PreStr(_) => 1
         case Any => 0
         case Empty(isAny) => if isAny then 0 else Cmp(a, 0))
      case Str(a) =>
        if o == p then 0
        else if o.Int64? || o.Uint64? then 1
        else if o.Str? then StrCompare(a, o.s)
        else 0
  }

  /** p.IsNull(): zero for the numeric variants, "" for String. */
  function IsNull(p: Part): (r: bool)
    requires Shown(p)
    ensures r <==> p in {Uint64(0), Int64(0), BigInt(0), Str("")}
  {
    match p
    case Uint64(u) => u == 0
    case Int64(i) => i == 0
    case BigInt(n) => n == 0
    case Str(s) => s == ""
  }

  /** BigInt.IsAny: a BigInt is never the "any" wildcard. */
  function BigIntIsAny(p: Part): (r: bool)
    requires p.BigInt?
    ensures !r
  {
    false
  }

  /** BigInt.IsEmpty: a BigInt is never empty. */
  function BigIntIsEmpty(p: Part): (r: bool)
    requires p.BigInt?
    ensures !r
  {
    false
  }

  /** NewUint64: strconv.ParseUint in base 10, failing on non-decimal or over-large text. */
  function NewUint64(s: string): (r: Result<Part, NumError>)
    ensures r.Success? <==> s != [] && AllIn(s, Digits) && Value(s) <= MaxUint64
    ensures r.Success? ==> r.value == Uint64(Value(s))
    ensures r.Failure? && s != [] && AllIn(s, Digits) ==> r.error == ErrRange
  {
    match ParseUint(s)
    case Success(n) => Success(Uint64(n))
    case Failure(e) => Failure(e)
  }

  /** NewInt64: strconv.ParseInt in base 10, with an optional sign. */
  function NewInt64(s: string): (r: Result<Part, NumError>)
    ensures r.Success? <==> SignedDigits(s) && MinInt64 <= SignedValue(s) <= MaxInt64
    ensures r.Success? ==> r.value == Int64(SignedValue(s))
  {
    match ParseInt(s)
    case Success(n) => Success(Int64(n))
    case Failure(e) => Failure(e)
  }

  /** NewBigInt: big.Int.SetString in base 10; the error names the rejected text. */
  function NewBigInt(s: string): (r: Result<Part, string>)
    ensures r.Success? <==> SignedDigits(s)
    ensures r.Success? ==> r.value == BigInt(SignedValue(s))
    ensures r.Failure? ==> r.error == "error setting " + s + " to BigInt"
  {
    match ParseBig(s)
    case Some(n) => Success(BigInt(n))
    case None => Failure("error setting " + s + " to BigInt")
  }

  function NewString(s: string): (r: Part)
    ensures r.Str? && r.s == s
    ensures IsNull(r) <==> s == ""
  {
    Str(s)
  }

  /** NewPart: an unsigned 64-bit decimal if the text is one, otherwise the text itself. */
  function NewPart(s: string): (r: Part)
    ensures Plain(r)
    ensures r.Uint64? <==> s != [] && AllIn(s, Digits) && Value(s) <= MaxUint64
    ensures r.Uint64? ==> r.u == Value(s)
    ensures r.Str? ==> r.s == s
  {
    match NewUint64(s)
    case Success(p) => p
    case Failure(_) => NewString(s)
  }

  // ---------------------------------------------------------------------
  // Properties of the comparison
  // ---------------------------------------------------------------------

  /** Numeric segments sort before strings, from both sides. */
  lemma NumbersBeforeStrings(n: u64, i: i64, t: string)
    ensures Compare(Uint64(n), Some(Str(t))) == -1 && Compare(Str(t), Some(Uint64(n))) == 1
    ensures Compare(Int64(i), Some(Str(t))) == -1 && Compare(Str(t), Some(Int64(i))) == 1
  {
  }

  /** Same-variant numbers compare by magnitude. */
  lemma NumericOrder(a: u64, b: u64, x: i64, y: i64)
    ensures Compare(Uint64(a), Some(Uint64(b))) == Cmp(a, b)
    ensures Compare(Int64(x), Some(Int64(y))) == Cmp(x, y)
  {
  }

  /** String vs String is strings.Compare, and String vs nil is 1. */
  lemma StringOrder(a: string, b: string)
    ensures Compare(Str(a), Some(Str(b))) == StrCompare(a, b)
    ensures Compare(Str(a), None) == 1
  {
  }

  /**
   * String against a variant other than Int64, Uint64 and String is 0,
   * while BigInt against String is -1: the comparison is not antisymmetric
   * across those variants.
   */
  lemma StringBigIntAsymmetry(t: string, n: int)
    ensures Compare(Str(t), Some(BigInt(n))) == 0
    ensures Compare(BigInt(n), Some(Str(t))) == -1
  {
  }

  /** BigInt against every variant it accepts. */
  lemma BigIntOrder(n: int, m: int, t: string, isAny: bool)
    ensures Compare(BigInt(n), None) == 1
    ensures Compare(BigInt(n), Some(BigInt(m))) == Cmp(n, m)
    ensures Compare(BigInt(n), Some(Str(t))) == -1
    ensures Compare(BigInt(n), Some(PreStr(t))) == 1
    ensures Compare(BigInt(n), Some(Any)) == 0
    ensures Compare(BigInt(n), Some(Empty(isAny))) == if isAny then 0 else Cmp(n, 0)
  {
  }

  /** BigInt against Uint64 is the numeric order as long as the Uint64 fits in an int64. */
  lemma BigIntUint64InRange(n: int, u: u64)
    requires u <= MaxInt64
    ensures Compare(BigInt(n), Some(Uint64(u))) == Cmp(n, u)
  {
  }

  /**
   * Above 2^63 - 1 the int64 conversion wraps: BigInt 0 is reported greater
   * than Uint64 2^63 although it is smaller.
   */
  lemma BigIntUint64Wraps()
    ensures Compare(BigInt(0), Some(Uint64(0x8000_0000_0000_0000))) == 1
    ensures Cmp(0, 0x8000_0000_0000_0000) == -1
  {
  }

  /** BigInt against Uint64 as intended: the exact numeric order of the two values. */
  function CompareBigIntUint64(n: int, u: u64): (r: int)
    ensures -1 <= r <= 1
    ensures r < 0 <==> n < u
    ensures r == 0 <==> n == u
    ensures u <= MaxInt64 ==> r == Compare(BigInt(n), Some(Uint64(u)))
  {
    Cmp(n, u)
  }

  /** On the variants NewPart produces, equal comparison means equal segments. */
  lemma PlainCompareZero(p: Part, q: Part)
    requires Plain(p) && Plain(q)
    ensures Compare(p, Some(q)) == 0 <==> p == q
  {
  }

  lemma {:induction false} PlainCompareAntisymmetric(p: Part, q: Part)
    requires Plain(p) && Plain(q)
    ensures Compare(p, Some(q)) == -Compare(q, Some(p))
  {
    if p.Str? && q.Str? {
      StrCompareAntisymmetric(p.s, q.s);
    }
  }

  lemma {:induction false} PlainCompareTransitive(p: Part, q: Part, r: Part)
    requires Plain(p) && Plain(q) && Plain(r)
    requires Compare(p, Some(q)) <= 0 && Compare(q, Some(r)) <= 0
    ensures Compare(p, Some(r)) <= 0
  {
    if p.Str? && q.Str? && r.Str? {
      StrCompareTransitive(p.s, q.s, r.s);
    }
  }
}
