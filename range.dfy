/**
 * Python-style integer ranges (packages/range/src/main.js).
 *
 * A Range is fixed at construction as (start, stop, step). Its length, its
 * indexing and its slicing are exact integer arithmetic on those three
 * fields; iterating it hands out a fresh RangeIterator.
 */
module Ranges {
  import opened Wrappers
  import RangeIterators
  import JsValues

  /** A constructor argument: an integer Number, or any other JavaScript value. */
  datatype Arg = Int(n: int) | NonInteger

  /** The errors the Range class throws. */
  datatype RangeError =
    | ArityError              // RangeError "Range expected at least 1 argument, got 0"
    | NotIntegers             // TypeError "range indices must all be integers"
    | ZeroStep                // RangeError "step must not be zero"
    | IndexOutOfRange(i: int) // RangeError "index i out of range"
    | ZeroSliceStep           // RangeError "slice step must not be zero"

  datatype Range = Range(start: int, stop: int, step: int)

  /** Every Range the constructor lets through has a non-zero step. */
  type ValidRange = r: Range | r.step != 0 witness Range(0, 0, 1)

  function Abs(x: int): nat
  {
    if x < 0 then -x else x
  }

  function Min(x: int, y: int): int
  {
    if x < y then x else y
  }

  function Max(x: int, y: int): int
  {
    if x < y then y else x
  }

  // ---------------------------------------------------------------------------
  // Ceiling division
  // ---------------------------------------------------------------------------

  /** The ceiling of d / m: the least q whose multiple of m covers d. */
  function CeilDiv(d: nat, m: nat): (q: nat)
    requires m > 0
    ensures q * m >= d
    ensures (q - 1) * m < d
  {
    var q := (d + m - 1) / m;
    assert (d + m - 1) == q * m + (d + m - 1) % m;
    q
  }

  /** The two bounds of CeilDiv determine it. */
  lemma {:induction false} CeilDivUnique(d: nat, m: nat, q: int)
    requires m > 0
    requires q * m >= d && (q - 1) * m < d
    ensures q == CeilDiv(d, m)
  {
    var c := CeilDiv(d, m);
    if q < c {
      JsValues.MulLeq(q, c - 1, m);
    } else if q > c {
      JsValues.MulLeq(c, q - 1, m);
    }
  }

  lemma MulAssoc(a: int, b: int, c: int)
    ensures a * (b * c) == (a * b) * c
  {
  }

  /** Scaling both operands by the same positive factor leaves the ceiling unchanged. */
  lemma {:induction false} CeilDivScale(d: nat, m: nat, s: nat)
    requires m > 0 && s > 0
    ensures CeilDiv(d * s, m * s) == CeilDiv(d, m)
  {
    var q := CeilDiv(d, m);
    var ds, ms := d * s, m * s;
    MulAssoc(q, m, s);
    MulAssoc(q - 1, m, s);
    JsValues.MulLeq(d, q * m, s);
    assert q * ms >= ds;
    JsValues.MulLeq((q - 1) * m, d - 1, s);
    assert (d - 1) * s == ds - s;
    assert (q - 1) * ms < ds;
    CeilDivUnique(ds, ms, q);
  }

  // ---------------------------------------------------------------------------
  // Construction
  // ---------------------------------------------------------------------------

  predicate AllIntegers(args: seq<Arg>)
  {
    forall i :: 0 <= i < |args| ==> args[i].Int?
  }

  /**
   * `new Range(...args)`: the arity check, then the integer check, then (for
   * three arguments) the zero-step check. One argument n gives (0, n, 1), two
   * give (a, b, 1), three give (a, b, c), and four or more fall through to the
   * one-argument branch.
   */
  function New(args: seq<Arg>): (r: Result<ValidRange, RangeError>)
    ensures |args| == 0 ==> r == Failure(ArityError)
    ensures |args| > 0 && !AllIntegers(args) ==> r == Failure(NotIntegers)
    ensures r.Success? <==> |args| > 0 && AllIntegers(args) && !(|args| == 3 && args[2] == Int(0))
    ensures r == Failure(ZeroStep) <==> |args| == 3 && AllIntegers(args) && args[2] == Int(0)
    ensures r.Success? && |args| == 3 ==> r.value == Range(args[0].n, args[1].n, args[2].n)
    ensures r.Success? && |args| == 2 ==> r.value == Range(args[0].n, args[1].n, 1)
    ensures r.Success? && |args| != 2 && |args| != 3 ==> r.value == Range(0, args[0].n, 1)
  {
    if |args| == 0 then Failure(ArityError)
    else if !AllIntegers(args) then Failure(NotIntegers)
    else if |args| == 3 then
      if args[2].n == 0 then Failure(ZeroStep)
      else Success(Range(args[0].n, args[1].n, args[2].n))
    else if |args| == 2 then Success(Range(args[0].n, args[1].n, 1))
    else Success(Range(0, args[0].n, 1))
  }

  // ---------------------------------------------------------------------------
  // Length, elements, indexing
  // ---------------------------------------------------------------------------

  /**
   * `length`: the number of steps of size |step| needed to cover the distance
   * between start and stop, whichever way step points.
   */
  function Length(r: ValidRange): (n: nat)
    ensures n * Abs(r.step) >= Abs(r.stop - r.start)
    ensures (n - 1) * Abs(r.step) < Abs(r.stop - r.start)
  {
    CeilDiv(Abs(r.stop - r.start), Abs(r.step))
  }

  /** The values the Range stands for: start + i * step for each i below the length. */
  function Elems(r: ValidRange): (s: seq<int>)
    ensures |s| == Length(r)
  {
    seq(Length(r), i => r.start + i * r.step)
  }

  /** `_withinBounds`: Python-style index domain. */
  predicate WithinBounds(r: ValidRange, i: int)
    ensures WithinBounds(r, i) <==> 0 <= Wrap(r, i) < Length(r)
  {
    var n: int := Length(r);
    -n <= i < n
  }

  /** The one shift both `_getitem` and `_calcSlice` apply to a negative index. */
  function Wrap(r: ValidRange, i: int): int
  {
    if i < 0 then i + Length(r) else i
  }

  /** `_getitem`: the progression's value at an index, after one negative wrap; no bounds check. */
  function GetItem(r: ValidRange, i: int): (v: int)
    ensures 0 <= Wrap(r, i) < Length(r) ==> v == Elems(r)[Wrap(r, i)]
  {
    r.start + Wrap(r, i) * r.step
  }

  /** `index`: the element at a Python-style index, or IndexOutOfRange carrying the index. */
  function Index(r: ValidRange, i: int): (res: Result<int, RangeError>)
    ensures res.Success? <==> -(Length(r) as int) <= i < Length(r)
    ensures res.Success? ==> res.value == Elems(r)[if i < 0 then i + Length(r) else i]
    ensures res.Failure? ==> res.error == IndexOutOfRange(i)
  {
    if !WithinBounds(r, i) then Failure(IndexOutOfRange(i)) else Success(GetItem(r, i))
  }

  /** A negative index names the same element as the non-negative one `length` above it. */
  lemma IndexNegativeMirror(r: ValidRange, i: int)
    requires 0 <= i < Length(r)
    ensures Index(r, i - Length(r)) == Index(r, i) == Success(r.start + i * r.step)
  {
  }

  /**
   * When the step points from start towards stop, the elements are exactly the
   * progression's values strictly before stop.
   */
  lemma {:induction false} ElemsBeforeStop(r: ValidRange, i: nat)
    requires r.step > 0 ==> r.start <= r.stop
    requires r.step < 0 ==> r.stop <= r.start
    ensures i < Length(r) <==> (if r.step > 0 then r.start + i * r.step < r.stop
                                else r.start + i * r.step > r.stop)
  {
    var n, m, d := Length(r), Abs(r.step), Abs(r.stop - r.start);
    if i < n {
      JsValues.MulLeq(i, n - 1, m);
    } else {
      JsValues.MulLeq(n, i, m);
    }
    if r.step > 0 {
      assert i * m == i * r.step;
    } else {
      assert i * m == -(i * r.step);
    }
  }

  /**
   * When the step points away from stop, the length is still the ceiling of
   * the distance, and every element lies on the far side of start from stop.
   */
  lemma {:induction false} ElemsMoveAwayFromStop(r: ValidRange, i: nat)
    requires (r.step > 0 && r.stop < r.start) || (r.step < 0 && r.start < r.stop)
    requires i < Length(r)
    ensures Length(r) > 0
    ensures r.step > 0 ==> Elems(r)[i] >= r.start > r.stop
    ensures r.step < 0 ==> Elems(r)[i] <= r.start < r.stop
  {
    if r.step > 0 {
      JsValues.MulLeq(0, i, r.step);
    } else {
      JsValues.MulLeq(0, i, -r.step);
      assert i * -r.step == -(i * r.step);
    }
  }

  // ---------------------------------------------------------------------------
  // Slicing
  // ---------------------------------------------------------------------------

  /** The third argument of `slice`: left out (default 1), JavaScript `null`, or a number. */
  datatype SliceStep = Omitted | Null | Given(n: int)

  /**
   * The number `_calcSlice` computes with. `null` passes the `=== 0` check but
   * JavaScript coerces it to 0 in both `step < 0` and `step * this.step`.
   */
  function StepNumber(k: SliceStep): int
  {
    match k
    case Omitted => 1
    case Null => 0
    case Given(n) => n
  }

  /** The index `_calcSlice` hands to `_getitem` for the slice's start. */
  function SliceStartIndex(r: ValidRange, a: Option<int>, reversed: bool): int
  {
    match a
    case None => if reversed then -1 else 0
    case Some(i) => Max(0, Min(Wrap(r, i), Length(r)))
  }

  /** The index `_calcSlice` hands to `_getitem` for the slice's stop. */
  function SliceStopIndex(r: ValidRange, b: Option<int>, reversed: bool): int
  {
    match b
    case None => if reversed then -(Length(r) + 1) else Length(r)
    case Some(i) => Max(-(Length(r) + 1), Min(Wrap(r, i), if reversed then Length(r) - 1 else Length(r)))
  }

  /**
   * `_calcSlice`: the new (start, stop, step) in value space. Start and stop
   * are r's values at the start and stop positions; the step is the product
   * of the two steps. A `null` step reaches it too, as 0 in both `step < 0`
   * and `step * this.step`.
   */
  function CalcSlice(r: ValidRange, a: Option<int>, b: Option<int>, k: SliceStep): (t: (int, int, int))
    ensures t.0 == r.start + StartPosition(r, a, k) * r.step
    ensures t.1 == r.start + StopPosition(r, b, k) * r.step
    ensures 0 <= StartPosition(r, a, k) < Length(r) ==> t.0 == Elems(r)[StartPosition(r, a, k)]
    ensures 0 <= StopPosition(r, b, k) < Length(r) ==> t.1 == Elems(r)[StopPosition(r, b, k)]
    ensures t.2 == StepNumber(k) * r.step
  {
    var reversed := StepNumber(k) < 0;
    (GetItem(r, SliceStartIndex(r, a, reversed)), GetItem(r, SliceStopIndex(r, b, reversed)), StepNumber(k) * r.step)
  }

  /**
   * `slice(start, stop, step)`: a zero step is refused before any arithmetic;
   * otherwise the result is whatever the validating constructor makes of
   * `_calcSlice`'s triple, so a `null` step fails there with ZeroStep.
   */
  function Slice(r: ValidRange, a: Option<int>, b: Option<int>, k: SliceStep): (res: Result<ValidRange, RangeError>)
    ensures k == Given(0) ==> res == Failure(ZeroSliceStep)
    ensures k == Null ==> res == Failure(ZeroStep)
    ensures res.Success? <==> StepNumber(k) != 0
    ensures res.Success? ==> res.value.step == StepNumber(k) * r.step
  {
    if k == Given(0) then Failure(ZeroSliceStep)
    else
      var t := CalcSlice(r, a, b, k);
      New([Int(t.0), Int(t.1), Int(t.2)])
  }

  /** The position in r's progression where a slice starts (after `_getitem`'s wrap). */
  function StartPosition(r: ValidRange, a: Option<int>, k: SliceStep): (p: int)
    ensures -1 <= p <= Length(r)
    ensures a.Some? ==> 0 <= p
    ensures a.None? ==> p == if StepNumber(k) < 0 then Length(r) - 1 else 0
    ensures a.Some? && 0 <= Wrap(r, a.value) <= Length(r) ==> p == Wrap(r, a.value)
    ensures a.Some? && Wrap(r, a.value) < 0 ==> p == 0
    ensures a.Some? && Wrap(r, a.value) > Length(r) ==> p == Length(r)
  {
    Wrap(r, SliceStartIndex(r, a, StepNumber(k) < 0))
  }

  /** The position in r's progression where a slice stops (after `_getitem`'s wrap). */
  function StopPosition(r: ValidRange, b: Option<int>, k: SliceStep): (q: int)
    ensures -1 <= q <= Length(r)
    ensures StepNumber(k) < 0 ==> q < Length(r)
    ensures b.None? ==> q == if StepNumber(k) < 0 then -1 else Length(r)
    ensures b.Some? ==>
              var hi := if StepNumber(k) < 0 then Length(r) - 1 else Length(r);
              var w := Wrap(r, b.value);
              && (0 <= w <= hi ==> q == w)
              && (w > hi ==> q == hi)
              && (-(Length(r) + 1) <= w < 0 ==> q == w + Length(r))
              && (w < -(Length(r) + 1) ==> q == -1)
  {
    Wrap(r, SliceStopIndex(r, b, StepNumber(k) < 0))
  }

  lemma AbsMul(x: int, y: int)
    ensures Abs(x * y) == Abs(x) * Abs(y)
  {
    if x < 0 { assert x * y == -((-x) * y); }
    if y < 0 { assert x * y == -(x * (-y)); }
    if x < 0 && y < 0 { assert x * y == (-x) * (-y); }
  }

  /**
   * The Range between positions p and q of r's progression, walking k
   * positions at a time, has ceil(|q - p| / |k|) elements, the i-th at
   * position p + i * k.
   */
  lemma {:induction false} StridedRange(r: ValidRange, p: int, q: int, k: int)
    requires k != 0
    ensures var s: ValidRange := Range(r.start + p * r.step, r.start + q * r.step, k * r.step);
      && Length(s) == CeilDiv(Abs(q - p), Abs(k))
      && forall i :: 0 <= i < Length(s) ==> Elems(s)[i] == r.start + (p + i * k) * r.step
  {
    MulNonZero(k, r.step);
    var s: ValidRange := Range(r.start + p * r.step, r.start + q * r.step, k * r.step);
    StridedLength(r.start, r.step, p, q, k);
    forall i | 0 <= i < Length(s)
      ensures Elems(s)[i] == r.start + (p + i * k) * r.step
    {
      StridedElem(r.start, r.step, p, k, i);
    }
  }

  lemma MulNonZero(x: int, y: int)
    requires x != 0 && y != 0
    ensures x * y != 0
  {
    AbsMul(x, y);
    JsValues.MulLeq(1, Abs(x), Abs(y));
  }

  lemma StridedElem(start: int, step: int, p: int, k: int, i: int)
    ensures (start + p * step) + i * (k * step) == start + (p + i * k) * step
  {
    assert i * (k * step) == (i * k) * step;
  }

  lemma {:induction false} StridedLength(start: int, step: int, p: int, q: int, k: int)
    requires step != 0 && k != 0
    ensures Length(Range(start + p * step, start + q * step, k * step)) == CeilDiv(Abs(q - p), Abs(k))
  {
    var d, m := Abs(q - p), Abs(k);
    var t := Abs(step);
    assert (start + q * step) - (start + p * step) == (q - p) * step;
    AbsMul(q - p, step);
    AbsMul(k, step);
    CeilDivScale(d, m, t);
  }

  /** A successful slice is the Range between its start and stop positions, stepping StepNumber(k) positions. */
  lemma SliceIsStridedRange(r: ValidRange, a: Option<int>, b: Option<int>, k: SliceStep)
    requires StepNumber(k) != 0
    ensures Slice(r, a, b, k) == Success(Range(r.start + StartPosition(r, a, k) * r.step,
                                               r.start + StopPosition(r, b, k) * r.step,
                                               StepNumber(k) * r.step))
  {
  }

  /**
   * Every successful slice is the stride-k walk through r's progression from
   * the start position towards the stop position: it has
   * ceil(|q - p| / |k|) elements and its i-th element is r's value at
   * position p + i * k.
   */
  lemma {:induction false} SliceElems(r: ValidRange, a: Option<int>, b: Option<int>, k: SliceStep)
    requires StepNumber(k) != 0
    ensures Slice(r, a, b, k).Success?
    ensures var s, p, q := Slice(r, a, b, k).value, StartPosition(r, a, k), StopPosition(r, b, k);
      && Length(s) == CeilDiv(Abs(q - p), Abs(StepNumber(k)))
      && forall i :: 0 <= i < Length(s) ==> Elems(s)[i] == r.start + (p + i * StepNumber(k)) * r.step
  {
    SliceIsStridedRange(r, a, b, k);
    StridedRange(r, StartPosition(r, a, k), StopPosition(r, b, k), StepNumber(k));
  }

  /**
   * A forward slice whose start position does not pass its stop position is a
   * subsequence of r: every element is an element of r, at strictly increasing
   * positions p, p + k, p + 2k, ...
   */
  lemma {:induction false} ForwardSliceSubsequence(r: ValidRange, a: Option<int>, b: Option<int>, k: SliceStep)
    requires StepNumber(k) > 0
    requires StartPosition(r, a, k) <= StopPosition(r, b, k)
    ensures Slice(r, a, b, k).Success?
    ensures var s, p := Slice(r, a, b, k).value, StartPosition(r, a, k);
      forall i :: 0 <= i < Length(s) ==> 0 <= p + i * StepNumber(k) < Length(r) && Elems(s)[i] == Elems(r)[p + i * StepNumber(k)]
  {
    var s, p, q, kk := Slice(r, a, b, k).value, StartPosition(r, a, k), StopPosition(r, b, k), StepNumber(k);
    SliceElems(r, a, b, k);
    assert 0 <= p && q <= Length(r);
    ForwardStrideWithin(r, s, p, q, kk);
  }

  /** A stride-k walk from p towards q, with 0 <= p <= q <= length, reads only elements of r. */
  lemma ForwardStrideWithin(r: ValidRange, s: ValidRange, p: int, q: int, kk: int)
    requires kk > 0 && 0 <= p <= q <= Length(r)
    requires Length(s) == CeilDiv(Abs(q - p), Abs(kk))
    requires forall i :: 0 <= i < Length(s) ==> Elems(s)[i] == r.start + (p + i * kk) * r.step
    ensures forall i :: 0 <= i < Length(s) ==> 0 <= p + i * kk < Length(r) && Elems(s)[i] == Elems(r)[p + i * kk]
  {
    forall i | 0 <= i < Length(s)
      ensures 0 <= p + i * kk < Length(r) && Elems(s)[i] == Elems(r)[p + i * kk]
    {
      ForwardStrideBetween(p, q, kk, i);
    }
  }

  /** Walking forwards from p in steps of k, the first ceil((q - p) / k) positions stay in [p, q). */
  lemma ForwardStrideBetween(p: int, q: int, k: int, i: nat)
    requires k > 0 && p <= q && i < CeilDiv(q - p, k)
    ensures p <= p + i * k < q
  {
    JsValues.MulLeq(i, CeilDiv(q - p, k) - 1, k);
    JsValues.MulLeq(0, i, k);
  }

  /** Walking backwards from p in steps of -k, the first ceil((p - q) / k) positions stay in (q, p]. */
  lemma BackwardStrideBetween(p: int, q: int, k: int, i: nat)
    requires k < 0 && q <= p && i < CeilDiv(p - q, -k)
    ensures q < p + i * k <= p
  {
    JsValues.MulLeq(i, CeilDiv(p - q, -k) - 1, -k);
    JsValues.MulLeq(0, i, -k);
    assert i * -k == -(i * k);
  }

  /**
   * A reversed slice whose start position is an element of r and does not fall
   * below its stop position walks r backwards: every element is an element of r,
   * at strictly decreasing positions p, p + k, p + 2k, ... (k < 0).
   */
  lemma {:induction false} ReverseSliceSubsequence(r: ValidRange, a: Option<int>, b: Option<int>, k: SliceStep)
    requires StepNumber(k) < 0
    requires StopPosition(r, b, k) <= StartPosition(r, a, k) < Length(r)
    ensures Slice(r, a, b, k).Success?
    ensures var s, p := Slice(r, a, b, k).value, StartPosition(r, a, k);
      forall i :: 0 <= i < Length(s) ==> 0 <= p + i * StepNumber(k) < Length(r) && Elems(s)[i] == Elems(r)[p + i * StepNumber(k)]
  {
    var s, p, q, kk := Slice(r, a, b, k).value, StartPosition(r, a, k), StopPosition(r, b, k), StepNumber(k);
    SliceElems(r, a, b, k);
    assert -1 <= q;
    forall i | 0 <= i < Length(s)
      ensures 0 <= p + i * kk < Length(r) && Elems(s)[i] == Elems(r)[p + i * kk]
    {
      BackwardStrideBetween(p, q, kk, i);
    }
  }

  /** The sequence read back to front. */
  function Reversed(s: seq<int>): (t: seq<int>)
    ensures |t| == |s|
  {
    seq(|s|, i requires 0 <= i < |s| => s[|s| - 1 - i])
  }

  /**
   * `slice(null, null, -1)` yields exactly r's elements in reverse order, for
   * every Range (also an empty one, and one whose step points away from stop),
   * and its step is r's step negated.
   */
  lemma {:induction false} FullReverseSlice(r: ValidRange)
    ensures Slice(r, None, None, Given(-1)).Success?
    ensures Slice(r, None, None, Given(-1)).value.step == -r.step
    ensures Elems(Slice(r, None, None, Given(-1)).value) == Reversed(Elems(r))
  {
    var s := Slice(r, None, None, Given(-1)).value;
    var n: int := Length(r);
    SliceElems(r, None, None, Given(-1));
    assert StartPosition(r, None, Given(-1)) == n - 1;
    assert StopPosition(r, None, Given(-1)) == -1;
    CeilDivUnique(n, 1, n);
    assert Length(s) == n;
    forall i | 0 <= i < n
      ensures Elems(s)[i] == Reversed(Elems(r))[i]
    {
      assert Elems(s)[i] == r.start + ((n - 1) + i * -1) * r.step;
      assert (n - 1) + i * -1 == n - 1 - i;
    }
  }

  /**
   * `slice(a, b)` with in-bounds indices 0 <= a <= b <= length is the Range
   * (start + a * step, start + b * step, step), and its elements are r's
   * elements a .. b - 1.
   */
  lemma {:induction false} ForwardSlice(r: ValidRange, a: int, b: int)
    requires 0 <= a <= b <= Length(r)
    ensures Slice(r, Some(a), Some(b), Omitted) == Success(Range(r.start + a * r.step, r.start + b * r.step, r.step))
    ensures Elems(Slice(r, Some(a), Some(b), Omitted).value) == Elems(r)[a..b]
  {
    var s := Slice(r, Some(a), Some(b), Omitted).value;
    SliceElems(r, Some(a), Some(b), Omitted);
    assert StartPosition(r, Some(a), Omitted) == a;
    assert StopPosition(r, Some(b), Omitted) == b;
    CeilDivUnique(b - a, 1, b - a);
    assert Length(s) == b - a;
  }

  // ---------------------------------------------------------------------------
  // Behaviours that differ from Python's range
  // ---------------------------------------------------------------------------

  /** `Range(0, 10, -1)` has length 10 and yields 0, -1, ..., -9: the step's sign is never checked against stop. */
  lemma DirectionMismatchYields()
    ensures New([Int(0), Int(10), Int(-1)]).Success?
    ensures var r := New([Int(0), Int(10), Int(-1)]).value;
      Length(r) == 10 && forall i :: 0 <= i < 10 ==> Elems(r)[i] == -i
  {
    var r := New([Int(0), Int(10), Int(-1)]).value;
    CeilDivUnique(10, 1, 10);
  }

  /** `Range(0, 10).slice(null, -15)` is `[0..4]`: the negative stop index is wrapped twice. */
  lemma NegativeStopWrapsTwice()
    ensures New([Int(0), Int(10)]).Success?
    ensures Slice(New([Int(0), Int(10)]).value, None, Some(-15), Omitted) == Success(Range(0, 5, 1))
  {
    var r := New([Int(0), Int(10)]).value;
    CeilDivUnique(10, 1, 10);
    assert Wrap(r, -15) == -5;
    assert SliceStopIndex(r, Some(-15), false) == -5;
    assert StartPosition(r, None, Omitted) == 0;
    assert StopPosition(r, Some(-15), Omitted) == 5;
    SliceIsStridedRange(r, None, Some(-15), Omitted);
  }

  /**
   * `Range(0, 10).slice(5, 2)` is Range(5, 2, 1), which yields 5, 6, 7: a start
   * past the stop is not an empty slice, as it would be in Python.
   */
  lemma CrossedSliceBoundsYield()
    ensures New([Int(0), Int(10)]).Success?
    ensures Slice(New([Int(0), Int(10)]).value, Some(5), Some(2), Omitted) == Success(Range(5, 2, 1))
    ensures Elems(Range(5, 2, 1)) == [5, 6, 7]
  {
    var r := New([Int(0), Int(10)]).value;
    CeilDivUnique(10, 1, 10);
    assert StartPosition(r, Some(5), Omitted) == 5;
    assert StopPosition(r, Some(2), Omitted) == 2;
    SliceIsStridedRange(r, Some(5), Some(2), Omitted);
    CrossedSliceElems();
  }

  lemma CrossedSliceElems()
    ensures Elems(Range(5, 2, 1)) == [5, 6, 7]
  {
    CeilDivUnique(3, 1, 3);
    var e := Elems(Range(5, 2, 1));
    assert |e| == 3 && e[0] == 5 && e[1] == 6 && e[2] == 7;
  }

  /**
   * `Range(0, 10).slice(10, 0)` is Range(10, 0, 1): its step and direction
   * disagree, so it yields the ten values 10..19, none of them an element of
   * the range it was sliced from.
   */
  lemma CrossedSliceLeavesRange()
    ensures New([Int(0), Int(10)]) == Success(Range(0, 10, 1))
    ensures Slice(Range(0, 10, 1), Some(10), Some(0), Omitted) == Success(Range(10, 0, 1))
    ensures Length(Range(10, 0, 1)) == 10
    ensures forall i :: 0 <= i < 10 ==> Elems(Range(10, 0, 1))[i] == 10 + i
    ensures forall x :: x in Elems(Range(10, 0, 1)) ==> x !in Elems(Range(0, 10, 1))
  {
    CeilDivUnique(10, 1, 10);
    CrossedSliceRange();
    CrossedSliceDisjoint();
  }

  lemma CrossedSliceRange()
    ensures Slice(Range(0, 10, 1), Some(10), Some(0), Omitted) == Success(Range(10, 0, 1))
  {
    var r: ValidRange := Range(0, 10, 1);
    CeilDivUnique(10, 1, 10);
    var p, q := StartPosition(r, Some(10), Omitted), StopPosition(r, Some(0), Omitted);
    assert p == 10 && q == 0;
    SliceIsStridedRange(r, Some(10), Some(0), Omitted);
    var t: ValidRange := Range(r.start + p * r.step, r.start + q * r.step, StepNumber(Omitted) * r.step);
    assert t == Range(10, 0, 1);
  }

  lemma CrossedSliceDisjoint()
    ensures Length(Range(10, 0, 1)) == 10
    ensures forall i :: 0 <= i < 10 ==> Elems(Range(10, 0, 1))[i] == 10 + i
    ensures forall x :: x in Elems(Range(10, 0, 1)) ==> x !in Elems(Range(0, 10, 1))
  {
    CeilDivUnique(10, 1, 10);
    var e, o := Elems(Range(10, 0, 1)), Elems(Range(0, 10, 1));
    assert |e| == 10 && |o| == 10;
    forall x | x in o
      ensures x < 10
    {
      var i :| 0 <= i < 10 && o[i] == x;
    }
    forall x | x in e
      ensures 10 <= x
    {
      var i :| 0 <= i < 10 && e[i] == x;
    }
  }

  /** `Range(0, 10).slice(10, null, -1)` starts at 10, a value that is not an element of the original. */
  lemma ReversedSliceStartsAtLength()
    ensures New([Int(0), Int(10)]).Success?
    ensures Slice(New([Int(0), Int(10)]).value, Some(10), None, Given(-1)) == Success(Range(10, -1, -1))
    ensures 10 !in Elems(New([Int(0), Int(10)]).value)
  {
    var r := New([Int(0), Int(10)]).value;
    assert r == Range(0, 10, 1);
    CeilDivUnique(10, 1, 10);
    assert Length(r) == 10;
    assert Wrap(r, 10) == 10;
    assert SliceStartIndex(r, Some(10), true) == 10;
    assert StartPosition(r, Some(10), Given(-1)) == 10;
    assert StopPosition(r, None, Given(-1)) == -1;
    SliceIsStridedRange(r, Some(10), None, Given(-1));
    forall i | 0 <= i < 10
      ensures Elems(r)[i] != 10
    {
      assert Elems(r)[i] == i;
    }
  }

  // ---------------------------------------------------------------------------
  // Iteration
  // ---------------------------------------------------------------------------

  /** `[Symbol.iterator]()`: a new cursor at index 0 over a snapshot of the fields and the length. */
  method Iterate(r: ValidRange) returns (it: RangeIterators.RangeIterator)
    ensures fresh(it)
    ensures it.start == r.start && it.stop == r.stop && it.step == r.step
    ensures it.length == Length(r) && it.index == 0
  {
    it := new RangeIterators.RangeIterator(r.start, r.stop, r.step, Length(r));
  }

  /**
   * Spreading a Range (`[...range]`, `for...of`): take a fresh iterator and
   * call Next until it reports done. Exactly `length` values come out, and
   * they are the Range's elements; since each call starts from a fresh
   * iterator, iterating twice yields the same sequence.
   */
  method ToSeq(r: ValidRange) returns (xs: seq<int>)
    ensures xs == Elems(r)
  {
    var it := Iterate(r);
    xs := [];
    var value, done := it.Next();
    while !done
      invariant it.start == r.start && it.step == r.step && it.length == Length(r)
      invariant it.index == |xs| + 1
      invariant done <==> |xs| >= Length(r)
      invariant !done ==> value == r.start + |xs| * r.step
      invariant |xs| <= Length(r) && xs == Elems(r)[..|xs|]
      decreases Length(r) - |xs|
    {
      xs := xs + [value];
      value, done := it.Next();
    }
  }
}
