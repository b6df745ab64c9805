/**
 * Lists of segments (part.Parts): building them from dotted text,
 * stripping trailing null segments, and the zip-driven lexicographic
 * comparison with a padding segment for the shorter side.
 */
module PartList {
  import opened Wrappers
  import opened Text
  import opened Decimal
  import opened Part
  import P = Part

  function Max(a: nat, b: nat): nat { if a < b then b else a }

  // ---------------------------------------------------------------------
  // NewParts
  // ---------------------------------------------------------------------

  /** The segments of s: one NewPart per '.'-separated field. */
  function PartsOf(s: string): (ps: seq<Part>)
    ensures |ps| == |Split(s, ".")|
    ensures forall j | 0 <= j < |ps| :: ps[j] == NewPart(Split(s, ".")[j]) && Plain(ps[j])
  {
    var fs := Split(s, ".");
    seq(|fs|, j requires 0 <= j < |fs| => NewPart(fs[j]))
  }

  /** One segment per field: the number of dots plus one, so never empty. */
  lemma PartsOfLength(s: string)
    ensures |PartsOf(s)| == CountChar(s, '.') + 1
  {
    SplitCount(s, '.');
  }

  /** NewParts: appends NewPart of each field in turn. */
  method NewParts(s: string) returns (parts: seq<Part>)
    ensures parts == PartsOf(s)
  {
    var fields := Split(s, ".");
    parts := [];
    var k := 0;
    while k < |fields|
      invariant 0 <= k <= |fields|
      invariant parts == PartsOf(s)[..k]
    {
      parts := parts + [NewPart(fields[k])];
      k := k + 1;
    }
  }

  // ---------------------------------------------------------------------
  // Normalize
  // ---------------------------------------------------------------------

  predicate AllShown(ps: seq<Part>) {
    forall j | 0 <= j < |ps| :: Shown(ps[j])
  }

  /** ps without its trailing null segments. */
  function Normalized(ps: seq<Part>): (r: seq<Part>)
    requires AllShown(ps)
    ensures r <= ps
    ensures r == [] || !IsNull(r[|r| - 1])
    ensures forall j | |r| <= j < |ps| :: IsNull(ps[j])
  {
    if ps != [] && IsNull(ps[|ps| - 1]) then Normalized(ps[..|ps| - 1]) else ps
  }

  /** Normalizing twice is normalizing once. */
  lemma NormalizedIdempotent(ps: seq<Part>)
    requires AllShown(ps)
    ensures Normalized(Normalized(ps)) == Normalized(ps)
  {
  }

  /** Appending null segments does not change the normal form. */
  lemma {:induction false} NormalizedAppendNulls(ps: seq<Part>, zs: seq<Part>)
    requires AllShown(ps) && AllShown(zs)
    requires forall j | 0 <= j < |zs| :: IsNull(zs[j])
    ensures AllShown(ps + zs) && Normalized(ps + zs) == Normalized(ps)
    decreases |zs|
  {
    if zs != [] {
      var q := ps + zs;
      assert q[..|q| - 1] == ps + zs[..|zs| - 1];
      assert q[|q| - 1] == zs[|zs| - 1];
      NormalizedAppendNulls(ps, zs[..|zs| - 1]);
      assert Normalized(q) == Normalized(q[..|q| - 1]);
    } else {
      assert ps + zs == ps;
    }
  }

  /** Normalize: walks down from the last segment, cutting while the segment is null. */
  method Normalize(parts: seq<Part>) returns (ret: seq<Part>)
    requires AllShown(parts)
    ensures ret == Normalized(parts)
  {
    ret := parts;
    var i := |parts| - 1;
    assert ret == parts[..i + 1];
    while i >= 0
      invariant -1 <= i < |parts|
      invariant ret == parts[..i + 1] && AllShown(ret)
      invariant Normalized(ret) == Normalized(parts)
    {
      if IsNull(parts[i]) {
        assert ret[i] == parts[i];
        ret := ret[..i];
        i := i - 1;
      } else {
        assert ret[i] == parts[i];
        break;
      }
    }
  }

  // ---------------------------------------------------------------------
  // Zip
  // ---------------------------------------------------------------------

  /** One step of Zip: the segments at the same index, nil past either end. */
  datatype ZipTuple = ZipTuple(left: Option<Part>, right: Option<Part>)

  /** Segment i of ps, or pad past the end. */
  function Elem(ps: seq<Part>, i: nat, pad: Option<Part>): (r: Option<Part>)
    ensures i < |ps| ==> r == Some(ps[i])
    ensures i >= |ps| ==> r == pad
  {
    if i < |ps| then Some(ps[i]) else pad
  }

  /**
   * The closure returned by Parts.Zip: its captured counter i advances on
   * every call that yields a tuple.
   */
  class Zipper {
    const parts: seq<Part>
    const other: seq<Part>
    var i: nat

    predicate Valid()
      reads this
    {
      i <= Max(|parts|, |other|)
    }

    constructor (parts: seq<Part>, other: seq<Part>)
      ensures this.parts == parts && this.other == other && i == 0
      ensures Valid()
    {
      this.parts := parts;
      this.other := other;
      i := 0;
    }

    /** The next tuple, or None once both lists are exhausted. */
    method Next() returns (t: Option<ZipTuple>)
      requires Valid()
      modifies this
      ensures Valid()
      ensures old(i) < Max(|parts|, |other|) ==>
        t == Some(ZipTuple(Elem(parts, old(i), None), Elem(other, old(i), None))) && i == old(i) + 1
      ensures old(i) == Max(|parts|, |other|) ==> t.None? && i == old(i)
    {
      var part1: Option<Part> := None;
      var part2: Option<Part> := None;
      if i < |parts| {
        part1 := Some(parts[i]);
      }
      if i < |other| {
        part2 := Some(other[i]);
      }
      if part1.None? && part2.None? {
        return None;
      }
      i := i + 1;
      return Some(ZipTuple(part1, part2));
    }
  }

  /** Drains a fresh Zip: it yields exactly max(|parts|, |other|) tuples before nil. */
  method ZipCount(parts: seq<Part>, other: seq<Part>) returns (n: nat)
    ensures n == Max(|parts|, |other|)
  {
    var iter := new Zipper(parts, other);
    n := 0;
    var t := iter.Next();
    while t.Some?
      invariant iter.parts == parts && iter.other == other && iter.Valid()
      invariant t.Some? ==> iter.i == n + 1
      invariant t.None? ==> iter.i == n == Max(|parts|, |other|)
      decreases Max(|parts|, |other|) - n
    {
      n := n + 1;
      t := iter.Next();
    }
  }

  // ---------------------------------------------------------------------
  // Compare
  // ---------------------------------------------------------------------

  /** Whether one step of the comparison loop returns instead of panicking. */
  predicate StepDefined(l: Option<Part>, r: Option<Part>) {
    if l.None? then r.Some? && Defined(r.value, None) else Defined(l.value, r)
  }

  /** One step of the loop, after padding: -r.Compare(nil) when l is nil, else l.Compare(r). */
  function Step(l: Option<Part>, r: Option<Part>): (res: int)
    requires StepDefined(l, r)
    ensures -1 <= res <= 1
    ensures l.None? ==> res == -1
    ensures l.Some? && r.None? ==> res == 1
  {
    if l.None? then -1 * P.Compare(r.value, None) else P.Compare(l.value, r)
  }

  predicate ZipSafeFrom(ps: seq<Part>, os: seq<Part>, pad: Option<Part>, i: nat) {
    forall j | i <= j < Max(|ps|, |os|) :: StepDefined(Elem(ps, j, pad), Elem(os, j, pad))
  }

  /** The result of the comparison loop from tuple i onwards: the first non-zero step. */
  function ZipFrom(ps: seq<Part>, os: seq<Part>, pad: Option<Part>, i: nat): (r: int)
    requires i <= Max(|ps|, |os|) && ZipSafeFrom(ps, os, pad, i)
    ensures -1 <= r <= 1
    decreases Max(|ps|, |os|) - i
  {
    if i == Max(|ps|, |os|) then 0
    else
      var res := Step(Elem(ps, i, pad), Elem(os, i, pad));
      if res != 0 then res else ZipFrom(ps, os, pad, i + 1)
  }

  /** What the source needs of a comparison to return instead of panicking. */
  predicate CompareSafe(ps: seq<Part>, other: Option<seq<Part>>, pad: Option<Part>) {
    other.Some? && ps != other.value ==> ZipSafeFrom(ps, other.value, pad, 0)
  }

  /** Parts.Compare(other, padding). */
  function CompareParts(ps: seq<Part>, other: Option<seq<Part>>, pad: Option<Part>): (r: int)
    requires CompareSafe(ps, other, pad)
    ensures -1 <= r <= 1
    ensures other.None? ==> r == 1
    ensures other == Some(ps) ==> r == 0
  {
    if other.None? then 1
    else if ps == other.value then 0
    else ZipFrom(ps, other.value, pad, 0)
  }

  /** Parts.Compare, driving the Zip closure until it yields nil or a step differs. */
  method Compare(parts: seq<Part>, other: Option<seq<Part>>, padding: Option<Part>) returns (result: int)
    requires CompareSafe(parts, other, padding)
    ensures result == CompareParts(parts, other, padding)
  {
    if other.None? {
      return 1;
    }
    if parts == other.value {
      return 0;
    }
    var os := other.value;
    var iter := new Zipper(parts, os);
    var tuple := iter.Next();
    ghost var k: nat := 0;
    while tuple.Some?
      invariant iter.parts == parts && iter.other == os && iter.Valid()
      invariant k <= Max(|parts|, |os|)
      invariant tuple.Some? ==> iter.i == k + 1 && tuple.value == ZipTuple(Elem(parts, k, None), Elem(os, k, None))
      invariant tuple.None? ==> k == Max(|parts|, |os|)
      invariant ZipFrom(parts, os, padding, 0) == ZipFrom(parts, os, padding, k)
      decreases Max(|parts|, |os|) - k
    {
      var l, r := tuple.value.left, tuple.value.right;
      if l.None? {
        l := padding;
      }
      if r.None? {
        r := padding;
      }
      assert l == Elem(parts, k, padding) && r == Elem(os, k, padding);
      if l.None? {
        var res := -1 * P.Compare(r.value, None);
        if res != 0 {
          return res;
        }
      } else {
        var res := P.Compare(l.value, r);
        if res != 0 {
          return res;
        }
      }
      k := k + 1;
      tuple := iter.Next();
    }
    return 0;
  }

  // ---------------------------------------------------------------------
  // Properties of the comparison on plain segments
  // ---------------------------------------------------------------------

  predicate AllPlain(ps: seq<Part>) {
    forall j | 0 <= j < |ps| :: Plain(ps[j])
  }

  predicate PlainPad(pad: Option<Part>) {
    pad.None? || Plain(pad.value)
  }

  /** Plain segments never make the comparison panic. */
  lemma PlainSafe(ps: seq<Part>, os: seq<Part>, pad: Option<Part>, i: nat)
    requires AllPlain(ps) && AllPlain(os) && PlainPad(pad)
    ensures ZipSafeFrom(ps, os, pad, i)
  {
  }

  /**
   * Step extended to the case where both sides are nil (0), so that a
   * comparison can be run over any common length.
   */
  function OStep(l: Option<Part>, r: Option<Part>): (res: int)
    requires l.None? || Plain(l.value)
    requires r.None? || Plain(r.value)
    ensures -1 <= res <= 1
    ensures (l.Some? || r.Some?) ==> res == Step(l, r)
    ensures res == 0 <==> l == r
  {
    if l.None? && r.None? then 0
    else if l.Some? && r.Some? then
      PlainCompareZero(l.value, r.value);
      Step(l, r)
    else Step(l, r)
  }

  lemma OStepAntisymmetric(l: Option<Part>, r: Option<Part>)
    requires l.None? || Plain(l.value)
    requires r.None? || Plain(r.value)
    ensures OStep(l, r) == -OStep(r, l)
  {
    if l.Some? && r.Some? {
      PlainCompareAntisymmetric(l.value, r.value);
    }
  }

  lemma OStepTransitive(a: Option<Part>, b: Option<Part>, c: Option<Part>)
    requires a.None? || Plain(a.value)
    requires b.None? || Plain(b.value)
    requires c.None? || Plain(c.value)
    requires OStep(a, b) <= 0 && OStep(b, c) <= 0
    ensures OStep(a, c) <= 0
  {
    if a.Some? && b.Some? && c.Some? {
      PlainCompareTransitive(a.value, b.value, c.value);
    }
  }

  /** The comparison loop run over positions i .. n-1, for any n at least both lengths. */
  function LexFrom(ps: seq<Part>, os: seq<Part>, pad: Option<Part>, i: nat, n: nat): (r: int)
    requires AllPlain(ps) && AllPlain(os) && PlainPad(pad)
    requires i <= n
    decreases n - i
  {
    if i == n then 0
    else
      var res := OStep(Elem(ps, i, pad), Elem(os, i, pad));
      if res != 0 then res else LexFrom(ps, os, pad, i + 1, n)
  }

  /** Running past both ends changes nothing: the padded positions compare equal. */
  lemma {:induction false} ZipFromLex(ps: seq<Part>, os: seq<Part>, pad: Option<Part>, i: nat, n: nat)
    requires AllPlain(ps) && AllPlain(os) && PlainPad(pad)
    requires i <= Max(|ps|, |os|) <= n
    ensures ZipSafeFrom(ps, os, pad, i)
    ensures ZipFrom(ps, os, pad, i) == LexFrom(ps, os, pad, i, n)
    decreases n - i
  {
    PlainSafe(ps, os, pad, i);
    if i == Max(|ps|, |os|) {
      LexTail(ps, os, pad, i, n);
    } else {
      ZipFromLex(ps, os, pad, i + 1, n);
    }
  }

  lemma {:induction false} LexTail(ps: seq<Part>, os: seq<Part>, pad: Option<Part>, i: nat, n: nat)
    requires AllPlain(ps) && AllPlain(os) && PlainPad(pad)
    requires Max(|ps|, |os|) <= i <= n
    ensures LexFrom(ps, os, pad, i, n) == 0
    decreases n - i
  {
    if i < n {
      LexTail(ps, os, pad, i + 1, n);
    }
  }

  lemma {:induction false} LexAntisymmetric(ps: seq<Part>, os: seq<Part>, pad: Option<Part>, i: nat, n: nat)
    requires AllPlain(ps) && AllPlain(os) && PlainPad(pad)
    requires i <= n
    ensures LexFrom(ps, os, pad, i, n) == -LexFrom(os, ps, pad, i, n)
    decreases n - i
  {
    if i < n {
      OStepAntisymmetric(Elem(ps, i, pad), Elem(os, i, pad));
      LexAntisymmetric(ps, os, pad, i + 1, n);
    }
  }

  lemma {:induction false} LexTransitive(a: seq<Part>, b: seq<Part>, c: seq<Part>, pad: Option<Part>, i: nat, n: nat)
    requires AllPlain(a) && AllPlain(b) && AllPlain(c) && PlainPad(pad)
    requires i <= n
    requires LexFrom(a, b, pad, i, n) <= 0 && LexFrom(b, c, pad, i, n) <= 0
    ensures LexFrom(a, c, pad, i, n) <= 0
    decreases n - i
  {
    if i < n {
      var x, y, z := Elem(a, i, pad), Elem(b, i, pad), Elem(c, i, pad);
      OStepTransitive(x, y, z);
      OStepAntisymmetric(x, y);
      if OStep(x, y) == 0 && OStep(y, z) == 0 {
        LexTransitive(a, b, c, pad, i + 1, n);
      }
    }
  }

  /** Equal lists compare 0 under the loop as well. */
  lemma {:induction false} LexReflexive(ps: seq<Part>, pad: Option<Part>, i: nat, n: nat)
    requires AllPlain(ps) && PlainPad(pad) && i <= n
    ensures LexFrom(ps, ps, pad, i, n) == 0
    decreases n - i
  {
    if i < n {
      LexReflexive(ps, pad, i + 1, n);
    }
  }

  /** CompareParts on plain lists is the loop over any long enough range. */
  lemma CompareLex(ps: seq<Part>, os: seq<Part>, pad: Option<Part>, n: nat)
    requires AllPlain(ps) && AllPlain(os) && PlainPad(pad)
    requires Max(|ps|, |os|) <= n
    ensures CompareSafe(ps, Some(os), pad)
    ensures CompareParts(ps, Some(os), pad) == LexFrom(ps, os, pad, 0, n)
  {
    ZipFromLex(ps, os, pad, 0, n);
    if ps == os {
      LexReflexive(ps, pad, 0, n);
    }
  }

  /** Swapping the operands negates the result. */
  lemma ComparePartsAntisymmetric(ps: seq<Part>, os: seq<Part>, pad: Option<Part>)
    requires AllPlain(ps) && AllPlain(os) && PlainPad(pad)
    ensures CompareSafe(ps, Some(os), pad) && CompareSafe(os, Some(ps), pad)
    ensures CompareParts(ps, Some(os), pad) == -CompareParts(os, Some(ps), pad)
  {
    var n := Max(|ps|, |os|);
    CompareLex(ps, os, pad, n);
    CompareLex(os, ps, pad, n);
    LexAntisymmetric(ps, os, pad, 0, n);
  }

  /** "At most" is transitive. */
  lemma ComparePartsTransitive(a: seq<Part>, b: seq<Part>, c: seq<Part>, pad: Option<Part>)
    requires AllPlain(a) && AllPlain(b) && AllPlain(c) && PlainPad(pad)
    requires CompareSafe(a, Some(b), pad) && CompareSafe(b, Some(c), pad)
    requires CompareParts(a, Some(b), pad) <= 0 && CompareParts(b, Some(c), pad) <= 0
    ensures CompareSafe(a, Some(c), pad)
    ensures CompareParts(a, Some(c), pad) <= 0
  {
    var n := Max(Max(|a|, |b|), |c|);
    CompareLex(a, b, pad, n);
    CompareLex(b, c, pad, n);
    CompareLex(a, c, pad, n);
    LexTransitive(a, b, c, pad, 0, n);
  }

  /** Only identical plain lists compare 0 with nil padding. */
  lemma {:induction false} LexZeroNilPad(ps: seq<Part>, os: seq<Part>, i: nat, n: nat)
    requires AllPlain(ps) && AllPlain(os) && i <= n && Max(|ps|, |os|) <= n
    requires LexFrom(ps, os, None, i, n) == 0
    ensures forall j | i <= j < n :: Elem(ps, j, None) == Elem(os, j, None)
    decreases n - i
  {
    if i < n {
      LexZeroNilPad(ps, os, i + 1, n);
    }
  }

  lemma ComparePartsZeroNilPad(ps: seq<Part>, os: seq<Part>)
    requires AllPlain(ps) && AllPlain(os)
    ensures CompareSafe(ps, Some(os), None)
    ensures CompareParts(ps, Some(os), None) == 0 <==> ps == os
  {
    var n := Max(|ps|, |os|) + 1;
    CompareLex(ps, os, None, n);
    if CompareParts(ps, Some(os), None) == 0 {
      LexZeroNilPad(ps, os, 0, n);
      var m := if |ps| < |os| then |ps| else |os|;
      assert Elem(ps, m, None) == Elem(os, m, None);
      assert forall j | 0 <= j < |ps| :: ps[j] == os[j] by {
        forall j | 0 <= j < |ps|
          ensures ps[j] == os[j]
        {
          assert Elem(ps, j, None) == Elem(os, j, None);
        }
      }
    }
  }

  /** With nil padding, a proper prefix is smaller than the longer list. */
  lemma {:induction false} ProperPrefixSmaller(ps: seq<Part>, rest: seq<Part>)
    requires AllPlain(ps) && AllPlain(rest) && rest != []
    ensures CompareSafe(ps, Some(ps + rest), None)
    ensures CompareParts(ps, Some(ps + rest), None) == -1
  {
    var os := ps + rest;
    CompareLex(ps, os, None, |os|);
    PrefixLex(ps, os, 0);
  }

  lemma {:induction false} PrefixLex(ps: seq<Part>, os: seq<Part>, i: nat)
    requires AllPlain(ps) && AllPlain(os) && |ps| < |os| && os[..|ps|] == ps && i <= |ps|
    ensures LexFrom(ps, os, None, i, |os|) == -1
    decreases |ps| - i
  {
    if i < |ps| {
      assert os[i] == os[..|ps|][i];
      PrefixLex(ps, os, i + 1);
    }
  }

  /** With Uint64(0) padding, appending zero segments does not change the order: "1.2" equals "1.2.0". */
  lemma {:induction false} ZeroPaddingEqual(ps: seq<Part>, zeros: seq<Part>)
    requires AllPlain(ps)
    requires forall j | 0 <= j < |zeros| :: zeros[j] == Uint64(0)
    ensures CompareSafe(ps, Some(ps + zeros), Some(Uint64(0)))
    ensures CompareParts(ps, Some(ps + zeros), Some(Uint64(0))) == 0
  {
    var os := ps + zeros;
    CompareLex(ps, os, Some(Uint64(0)), |os|);
    ZeroTailLex(ps, os, 0);
  }

  lemma {:induction false} ZeroTailLex(ps: seq<Part>, os: seq<Part>, i: nat)
    requires AllPlain(ps) && AllPlain(os) && |ps| <= |os| && os[..|ps|] == ps && i <= |os|
    requires forall j | |ps| <= j < |os| :: os[j] == Uint64(0)
    ensures LexFrom(ps, os, Some(Uint64(0)), i, |os|) == 0
    decreases |os| - i
  {
    if i < |os| {
      if i < |ps| {
        assert os[i] == os[..|ps|][i];
      }
      ZeroTailLex(ps, os, i + 1);
    }
  }

  lemma {:induction false} CommonPrefixLex(ps: seq<Part>, os: seq<Part>, pad: Option<Part>, i: nat, k: nat, n: nat)
    requires AllPlain(ps) && AllPlain(os) && PlainPad(pad)
    requires i <= k <= |ps| && k <= |os| && k <= n && ps[..k] == os[..k]
    ensures LexFrom(ps, os, pad, i, n) == LexFrom(ps, os, pad, k, n)
    decreases k - i
  {
    if i < k {
      assert ps[i] == ps[..k][i] && os[i] == os[..k][i];
      CommonPrefixLex(ps, os, pad, i + 1, k, n);
    }
  }

  /** After a common prefix, the first pair of differing segments decides. */
  lemma FirstDifference(ps: seq<Part>, os: seq<Part>, pad: Option<Part>, k: nat)
    requires AllPlain(ps) && AllPlain(os) && PlainPad(pad)
    requires k < |ps| && k < |os| && ps[..k] == os[..k] && ps[k] != os[k]
    ensures CompareSafe(ps, Some(os), pad)
    ensures CompareParts(ps, Some(os), pad) == P.Compare(ps[k], Some(os[k])) != 0
  {
    var n := Max(|ps|, |os|);
    CompareLex(ps, os, pad, n);
    CommonPrefixLex(ps, os, pad, 0, k, n);
    PlainCompareZero(ps[k], os[k]);
  }

  /**
   * With Uint64(0) padding, a list that continues its prefix with zeros
   * and then a non-zero number is greater: "1.2.0.0.1" is above "1.2".
   */
  lemma PaddedTailGreater(ps: seq<Part>, zeros: seq<Part>, u: u64)
    requires AllPlain(ps) && u != 0
    requires forall j | 0 <= j < |zeros| :: zeros[j] == Uint64(0)
    ensures CompareSafe(ps + zeros + [Uint64(u)], Some(ps), Some(Uint64(0)))
    ensures CompareParts(ps + zeros + [Uint64(u)], Some(ps), Some(Uint64(0))) == 1
  {
    var q := ps + zeros + [Uint64(u)];
    var n, pad := |q|, Some(Uint64(0));
    CompareLex(q, ps, pad, n);
    assert q[..|ps|] == ps[..|ps|];
    CommonPrefixLex(q, ps, pad, 0, |ps|, n);
    ZeroRunLex(q, ps, |ps|, |ps| + |zeros|, n);
    assert Elem(q, |ps| + |zeros|, pad) == Some(Uint64(u));
  }

  lemma {:induction false} ZeroRunLex(q: seq<Part>, ps: seq<Part>, i: nat, k: nat, n: nat)
    requires AllPlain(q) && AllPlain(ps) && |ps| <= i <= k <= |q| <= n
    requires forall j | i <= j < k :: q[j] == Uint64(0)
    ensures LexFrom(q, ps, Some(Uint64(0)), i, n) == LexFrom(q, ps, Some(Uint64(0)), k, n)
    decreases k - i
  {
    if i < k {
      ZeroRunLex(q, ps, i + 1, k, n);
    }
  }

  /** LexFrom sees its operands only through Elem. */
  lemma {:induction false} LexSameElems(a: seq<Part>, b: seq<Part>, a2: seq<Part>, b2: seq<Part>, pad: Option<Part>, i: nat, n: nat)
    requires AllPlain(a) && AllPlain(b) && AllPlain(a2) && AllPlain(b2) && PlainPad(pad) && i <= n
    requires forall j | i <= j < n :: Elem(a, j, pad) == Elem(a2, j, pad) && Elem(b, j, pad) == Elem(b2, j, pad)
    ensures LexFrom(a, b, pad, i, n) == LexFrom(a2, b2, pad, i, n)
    decreases n - i
  {
    if i < n {
      LexSameElems(a, b, a2, b2, pad, i + 1, n);
    }
  }

  /** Every segment is a number, as in a parsed relaxed version. */
  predicate AllNumeric(ps: seq<Part>) {
    forall j | 0 <= j < |ps| :: ps[j].Uint64?
  }

  /** With Uint64(0) padding, normalizing numeric lists first does not change their order. */
  lemma NormalizedZeroOrder(ps: seq<Part>, os: seq<Part>)
    requires AllNumeric(ps) && AllNumeric(os)
    ensures AllShown(ps) && AllShown(os) && AllPlain(ps) && AllPlain(os)
    ensures AllPlain(Normalized(ps)) && AllPlain(Normalized(os))
    ensures CompareSafe(Normalized(ps), Some(Normalized(os)), Some(Uint64(0)))
    ensures CompareSafe(ps, Some(os), Some(Uint64(0)))
    ensures CompareParts(Normalized(ps), Some(Normalized(os)), Some(Uint64(0)))
         == CompareParts(ps, Some(os), Some(Uint64(0)))
  {
    var pad := Some(Uint64(0));
    var np, no := Normalized(ps), Normalized(os);
    assert AllPlain(np) && AllPlain(no) by {
      assert forall j | 0 <= j < |np| :: np[j] == ps[j];
      assert forall j | 0 <= j < |no| :: no[j] == os[j];
    }
    var n := Max(|ps|, |os|);
    CompareLex(np, no, pad, n);
    CompareLex(ps, os, pad, n);
    forall j | 0 <= j < n
      ensures Elem(np, j, pad) == Elem(ps, j, pad) && Elem(no, j, pad) == Elem(os, j, pad)
    {
      if j < |np| {
        assert np[j] == ps[j];
      } else if j < |ps| {
        assert IsNull(ps[j]);
      }
      if j < |no| {
        assert no[j] == os[j];
      } else if j < |os| {
        assert IsNull(os[j]);
      }
    }
    LexSameElems(np, no, ps, os, pad, 0, n);
  }

  /** Against zeros and zero padding, numeric segments never compare below. */
  lemma {:induction false} LexOverZeros(ps: seq<Part>, os: seq<Part>, i: nat, n: nat)
    requires AllNumeric(ps) && AllPlain(ps) && AllPlain(os) && i <= n
    requires forall j | i <= j < |os| :: os[j] == Uint64(0)
    ensures LexFrom(ps, os, Some(Uint64(0)), i, n) >= 0
    decreases n - i
  {
    if i < n {
      LexOverZeros(ps, os, i + 1, n);
    }
  }
}
