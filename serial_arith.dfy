/** Serial-number arithmetic of section 3 of RFC 1982 ("Serial Number
    Arithmetic") as the two serial test suites state it: the reference adder
    and comparator they carry, and the signer's own greater-than test
    `util_serial_gt`, which the suites pin down by example. */
module SerialArith {
  import opened Wrappers

  const SerialBits: nat := 32
  const TwoPow32: int := 0x1_0000_0000
  const TwoPow31: int := 0x8000_0000
  /** The largest increment section 3.1 of RFC 1982 defines. */
  const MaxSerialAdd: int := TwoPow31 - 1

  /** A C `uint32_t`. */
  type Uint32 = x: int | 0 <= x < 0x1_0000_0000

  /** Distance between two serials as unbounded integers. */
  function Distance(i1: Uint32, i2: Uint32): nat
  {
    if i1 < i2 then i2 - i1 else i1 - i2
  }

  /** The pair is exactly half the serial space apart: the case section 3.2
      of RFC 1982 leaves undefined. */
  predicate HalfRangeApart(i1: Uint32, i2: Uint32)
  {
    Distance(i1, i2) == TwoPow31
  }

  /** A C cast of an integer to `uint32_t`: reduction modulo 2^32. */
  function ToUint32(x: int): (r: Uint32)
    ensures (r - x) % TwoPow32 == 0
  {
    x % TwoPow32
  }

  /** A C cast of a `uint32_t` to `int32_t` (two's complement). */
  function ToInt32(x: Uint32): (r: int)
    ensures -TwoPow31 <= r < TwoPow31
    ensures (r - x) % TwoPow32 == 0
  {
    if x < TwoPow31 then x else x - TwoPow32
  }

  /** rfc1982_serial_increment: addition of section 3.1 of RFC 1982; None
      where the mock assertion on `n` fails. */
  function Rfc1982Increment(s: Uint32, n: nat): (r: Option<Uint32>)
    ensures r.None? <==> n > MaxSerialAdd
    ensures r.Some? && n == 0 ==> r.value == s
    ensures r.Some? && s + n < TwoPow32 ==> r.value == s + n
    ensures r.Some? && s + n >= TwoPow32 ==> r.value == s + n - TwoPow32
  {
    if n > MaxSerialAdd then None
    else Some(((s as int + n) % TwoPow32) as Uint32)
  }

  /** rfc1982_serial_comparison: 0 for equal, -1 for less, 1 for greater and
      None where the reference raises its mock assertion. */
  function Rfc1982Comparison(i1: Uint32, i2: Uint32): (r: Option<int>)
    ensures r.None? <==> HalfRangeApart(i1, i2)
    ensures r == Some(0) <==> i1 == i2
    ensures r.Some? ==> r.value in {-1, 0, 1}
  {
    if i1 == i2 then Some(0)
    else if (i1 < i2 && i2 - i1 < TwoPow31) || (i1 > i2 && i1 - i2 > TwoPow31) then Some(-1)
    else if (i1 < i2 && i2 - i1 > TwoPow31) || (i1 > i2 && i1 - i2 < TwoPow31) then Some(1)
    else None
  }

  /** rfc1982_serial_gt: the reference greater-than; None where the
      comparison asserts. */
  function Rfc1982Gt(i1: Uint32, i2: Uint32): (r: Option<bool>)
    ensures r.None? <==> HalfRangeApart(i1, i2)
  {
    match Rfc1982Comparison(i1, i2)
    case None => None
    case Some(c) => Some(c > 0)
  }

  /** util_serial_gt: `(int32_t)(a - b) > 0` on 32-bit serials. No serial is
      greater than itself, and neither of a half-range pair is greater. */
  function UtilSerialGt(a: Uint32, b: Uint32): (r: bool)
    ensures r ==> a != b
    ensures HalfRangeApart(a, b) ==> !r
  {
    ToInt32(ToUint32(a - b)) > 0
  }

  /** util_serial_gt holds exactly when `a` lies 1 to 2^31 - 1 steps ahead
      of `b` around the circle of serials. */
  lemma UtilSerialGtWindow(a: Uint32, b: Uint32)
    ensures UtilSerialGt(a, b) <==> 0 < (a - b) % TwoPow32 < TwoPow31
  {
  }

  /** Swapping the arguments of the reference comparison flips its sign
      wherever it is defined. */
  lemma ComparisonAntisymmetric(i1: Uint32, i2: Uint32)
    requires !HalfRangeApart(i1, i2)
    ensures Rfc1982Comparison(i1, i2).Some? && Rfc1982Comparison(i2, i1).Some?
    ensures Rfc1982Comparison(i2, i1).value == -Rfc1982Comparison(i1, i2).value
  {
  }

  /** Away from the undefined corner, exactly one of equal, less and greater
      holds (section 3.2 of RFC 1982). */
  lemma ComparisonTrichotomy(i1: Uint32, i2: Uint32)
    requires !HalfRangeApart(i1, i2)
    ensures (i1 == i2) || (Rfc1982Gt(i1, i2) == Some(true)) || (Rfc1982Gt(i2, i1) == Some(true))
    ensures !(Rfc1982Gt(i1, i2) == Some(true) && Rfc1982Gt(i2, i1) == Some(true))
    ensures i1 == i2 ==> Rfc1982Gt(i1, i2) == Some(false)
  {
    ComparisonAntisymmetric(i1, i2);
  }

  /** util_serial_gt agrees with the reference greater-than on every pair the
      reference defines. */
  lemma UtilSerialGtAgreesWithReference(a: Uint32, b: Uint32)
    requires !HalfRangeApart(a, b)
    ensures Rfc1982Gt(a, b) == Some(UtilSerialGt(a, b))
  {
    UtilSerialGtWindow(a, b);
    if a < b {
      assert (a - b) % TwoPow32 == a - b + TwoPow32;
    } else {
      assert (a - b) % TwoPow32 == a - b;
    }
  }

  /** On the undefined corner util_serial_gt answers false in both
      directions, where the reference raises its assertion. */
  lemma UtilSerialGtHalfRange(a: Uint32, b: Uint32)
    requires HalfRangeApart(a, b)
    ensures !UtilSerialGt(a, b) && !UtilSerialGt(b, a)
    ensures Rfc1982Gt(a, b).None? && Rfc1982Gt(b, a).None?
  {
    UtilSerialGtWindow(a, b);
    UtilSerialGtWindow(b, a);
    if a < b {
      assert (a - b) % TwoPow32 == TwoPow31;
      assert (b - a) % TwoPow32 == TwoPow31;
    } else {
      assert (a - b) % TwoPow32 == TwoPow31;
      assert (b - a) % TwoPow32 == TwoPow31;
    }
  }

  /** Adding any increment from 1 to 2^31 - 1 yields a serial that both the
      reference and util_serial_gt call greater. */
  lemma IncrementIsGreater(s: Uint32, n: nat)
    requires 0 < n <= MaxSerialAdd
    ensures Rfc1982Increment(s, n).Some?
    ensures Rfc1982Comparison(Rfc1982Increment(s, n).value, s) == Some(1)
    ensures UtilSerialGt(Rfc1982Increment(s, n).value, s)
  {
    var r := Rfc1982Increment(s, n).value;
    UtilSerialGtWindow(r, s);
    if s + n < TwoPow32 {
      assert (r - s) % TwoPow32 == n;
    } else {
      assert (r - s) % TwoPow32 == n;
    }
  }

  /** The example pairs of the `serial_gt` tests, after section 5.2 of
      RFC 1982: on each, util_serial_gt and the reference agree, and the
      last three pairs are "less than" across the half-way point. */
  lemma SerialGtExamples()
    ensures Rfc1982Gt(1, 0) == Some(UtilSerialGt(1, 0)) == Some(true)
    ensures Rfc1982Gt(44, 0) == Some(UtilSerialGt(44, 0)) == Some(true)
    ensures Rfc1982Gt(100, 0) == Some(UtilSerialGt(100, 0)) == Some(true)
    ensures Rfc1982Gt(100, 44) == Some(UtilSerialGt(100, 44)) == Some(true)
    ensures Rfc1982Gt(200, 100) == Some(UtilSerialGt(200, 100)) == Some(true)
    ensures Rfc1982Gt(TwoPow31, TwoPow31 - 55) == Some(UtilSerialGt(TwoPow31, TwoPow31 - 55)) == Some(true)
    ensures Rfc1982Gt(100, TwoPow31) == Some(UtilSerialGt(100, TwoPow31)) == Some(false)
    ensures Rfc1982Gt(0, TwoPow31 - 55) == Some(UtilSerialGt(0, TwoPow31 - 55)) == Some(false)
    ensures Rfc1982Gt(44, TwoPow31 - 55) == Some(UtilSerialGt(44, TwoPow31 - 55)) == Some(false)
  {
    UtilSerialGtAgreesWithReference(1, 0);
    UtilSerialGtAgreesWithReference(44, 0);
    UtilSerialGtAgreesWithReference(100, 0);
    UtilSerialGtAgreesWithReference(100, 44);
    UtilSerialGtAgreesWithReference(200, 100);
    UtilSerialGtAgreesWithReference(TwoPow31, TwoPow31 - 55);
    UtilSerialGtAgreesWithReference(100, TwoPow31);
    UtilSerialGtAgreesWithReference(0, TwoPow31 - 55);
    UtilSerialGtAgreesWithReference(44, TwoPow31 - 55);
  }

  /** test_serial_gt_incomparable: its two loops over the paired tables
      `i1s`/`i2s` pass when, for every index, util_serial_gt is false in
      both directions and the reference asserts in both directions. */
  method SerialGtIncomparable(i1s: seq<Uint32>, i2s: seq<Uint32>) returns (passed: bool)
    requires |i1s| == |i2s|
    ensures passed <==> forall k :: 0 <= k < |i1s| ==>
      !UtilSerialGt(i1s[k], i2s[k]) && Rfc1982Gt(i1s[k], i2s[k]).None? &&
      !UtilSerialGt(i2s[k], i1s[k]) && Rfc1982Gt(i2s[k], i1s[k]).None?
  {
    var idx := 0;
    while idx < |i1s|
      invariant 0 <= idx <= |i1s|
      invariant forall k :: 0 <= k < idx ==> !UtilSerialGt(i1s[k], i2s[k]) && Rfc1982Gt(i1s[k], i2s[k]).None?
    {
      if UtilSerialGt(i1s[idx], i2s[idx]) || Rfc1982Gt(i1s[idx], i2s[idx]).Some? {
        return false;
      }
      idx := idx + 1;
    }
    idx := 0;
    while idx < |i1s|
      invariant 0 <= idx <= |i1s|
      invariant forall k :: 0 <= k < idx ==> !UtilSerialGt(i2s[k], i1s[k]) && Rfc1982Gt(i2s[k], i1s[k]).None?
    {
      if UtilSerialGt(i2s[idx], i1s[idx]) || Rfc1982Gt(i2s[idx], i1s[idx]).Some? {
        return false;
      }
      idx := idx + 1;
    }
    return true;
  }

  /** The tables of test_serial_gt_incomparable are all half-range pairs, so
      every check of that test holds. */
  lemma IncomparableTablesAreHalfRange()
    ensures var i1s: seq<Uint32> := [TwoPow31, TwoPow31 + 1, TwoPow32 - 2, TwoPow32 - 1];
            var i2s: seq<Uint32> := [0, 1, TwoPow31 - 2, TwoPow31 - 1];
            forall k :: 0 <= k < 4 ==>
              !UtilSerialGt(i1s[k], i2s[k]) && !UtilSerialGt(i2s[k], i1s[k]) &&
              Rfc1982Gt(i1s[k], i2s[k]).None? && Rfc1982Gt(i2s[k], i1s[k]).None?
  {
    var i1s: seq<Uint32> := [TwoPow31, TwoPow31 + 1, TwoPow32 - 2, TwoPow32 - 1];
    var i2s: seq<Uint32> := [0, 1, TwoPow31 - 2, TwoPow31 - 1];
    forall k | 0 <= k < 4
      ensures !UtilSerialGt(i1s[k], i2s[k]) && !UtilSerialGt(i2s[k], i1s[k])
      ensures Rfc1982Gt(i1s[k], i2s[k]).None? && Rfc1982Gt(i2s[k], i1s[k]).None?
    {
      UtilSerialGtHalfRange(i1s[k], i2s[k]);
    }
  }
}
