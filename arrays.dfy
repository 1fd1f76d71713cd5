/**
 * map, find, reduce and flatMap over Arrays and other iterables
 * (packages/collections/src/arrays.js).
 *
 * An iterable is given by the sequence of values it yields, in order. Each
 * public helper hands an Array to its array-specialised loop and walks any
 * other iterable with its own loop; both loops are proved against the same
 * specification, so the two paths agree.
 */
module Arrays {
  import opened Wrappers
  import opened JsValues

  /** The `collection` argument: an Array, or another iterable, by the values it yields. */
  datatype Collection<T> = ArrayOf(items: seq<T>) | IterableOf(items: seq<T>)

  // ---------------------------------------------------------------------------
  // flatMap
  // ---------------------------------------------------------------------------

  /**
   * What the flat-map loops produce from the mapped values in order: a
   * TypeError as soon as one of them is null or undefined (reading its
   * `Symbol.iterator` throws), otherwise the concatenation of their pieces.
   */
  function FlattenChecked<U>(vs: seq<JsVal<Piece<U>>>): (r: Result<seq<U>, TypeError>)
    ensures r.Success? <==> forall i :: 0 <= i < |vs| ==> vs[i].Defined?
    ensures r.Failure? ==> r == Failure(NullishPropertyRead)
    ensures r.Success? ==> r.value == Flatten(seq(|vs|, i requires 0 <= i < |vs| => vs[i].value))
  {
    if |vs| == 0 then Success([])
    else
      var last := vs[|vs| - 1];
      var prefix := vs[..|vs| - 1];
      match FlattenChecked(prefix)
      case Failure(e) => Failure(e)
      case Success(acc) =>
        if last.Defined? then
          assert seq(|vs|, i requires 0 <= i < |vs| => vs[i].value)[..|vs| - 1]
              == seq(|prefix|, i requires 0 <= i < |prefix| => prefix[i].value);
          Success(acc + Items(last.value))
        else Failure(NullishPropertyRead)
  }

  /** mappingFn(item, index) for every item, in order. */
  function MapIndexed<T, U>(s: seq<T>, f: (T, nat) -> U): (r: seq<U>)
    ensures |r| == |s|
  {
    seq(|s|, i requires 0 <= i < |s| => f(s[i], i))
  }

  lemma FlattenCheckedSnoc<U>(vs: seq<JsVal<Piece<U>>>, i: nat, acc: seq<U>)
    requires i < |vs| && vs[i].Defined?
    requires FlattenChecked(vs[..i]) == Success(acc)
    ensures FlattenChecked(vs[..i + 1]) == Success(acc + Items(vs[i].value))
  {
    assert vs[..i + 1][..i] == vs[..i];
  }

  /**
   * `flatMapArray`: walk the array by index, spreading iterable results and
   * pushing the others; a nullish result throws.
   */
  method FlatMapArray<T, U>(arr: seq<T>, mappingFn: (T, nat) -> JsVal<Piece<U>>) returns (r: Result<seq<U>, TypeError>)
    ensures r == FlattenChecked(MapIndexed(arr, mappingFn))
  {
    ghost var vs := MapIndexed(arr, mappingFn);
    var length := |arr|;
    var flattened := [];
    var i := 0;
    while i < length
      invariant 0 <= i <= length
      invariant FlattenChecked(vs[..i]) == Success(flattened)
    {
      var value := mappingFn(arr[i], i);
      if value.Undefined? || value.Null? {
        assert vs[..i + 1][..i] == vs[..i];
        assert vs[i] == value;
        return Failure(NullishPropertyRead);
      }
      FlattenCheckedSnoc(vs, i, flattened);
      flattened := flattened + Items(value.value);
      i := i + 1;
    }
    assert vs[..i] == vs;
    r := Success(flattened);
  }

  /** `flatMap`: Arrays go to FlatMapArray; other iterables are walked with for...of and a counter. */
  method FlatMap<T, U>(collection: Collection<T>, mappingFn: (T, nat) -> JsVal<Piece<U>>) returns (r: Result<seq<U>, TypeError>)
    ensures r == FlattenChecked(MapIndexed(collection.items, mappingFn))
  {
    if collection.ArrayOf? {
      r := FlatMapArray(collection.items, mappingFn);
      return;
    }
    ghost var vs := MapIndexed(collection.items, mappingFn);
    var flattened := [];
    var i := 0;
    for k := 0 to |collection.items|
      invariant i == k
      invariant FlattenChecked(vs[..k]) == Success(flattened)
    {
      var item := collection.items[k];
      var value := mappingFn(item, i);
      i := i + 1;
      if value.Undefined? || value.Null? {
        assert vs[..k + 1][..k] == vs[..k];
        assert vs[k] == value;
        return Failure(NullishPropertyRead);
      }
      FlattenCheckedSnoc(vs, k, flattened);
      flattened := flattened + Items(value.value);
    }
    assert vs[..|vs|] == vs;
    r := Success(flattened);
  }

  /** When every mapped result is a single non-iterable value, flat-mapping is plain mapping. */
  lemma FlatMapOfSingles<T, U>(s: seq<T>, f: (T, nat) -> U)
    ensures FlattenChecked(MapIndexed(s, (x, i) => Defined(Single(f(x, i))))) == Success(MapIndexed(s, f))
  {
    var vs := MapIndexed(s, (x, i) => Defined(Single(f(x, i))));
    var ps := seq(|vs|, i requires 0 <= i < |vs| => vs[i].value);
    assert forall i :: 0 <= i < |ps| ==> ps[i] == Single(f(s[i], i));
    FlattenSingles(ps);
    assert Flatten(ps) == MapIndexed(s, f);
  }

  /** mappingFn with its index argument shifted by n: what the items after the first n see. */
  function Shifted<T, U>(f: (T, nat) -> U, n: nat): (T, nat) -> U
  {
    (x: T, i: nat) => f(x, i + n)
  }

  /** Checked flattening of a concatenation: both parts' results joined, or the TypeError if either part throws. */
  lemma FlattenCheckedAppend<U>(va: seq<JsVal<Piece<U>>>, vb: seq<JsVal<Piece<U>>>)
    ensures var ra, rb := FlattenChecked(va), FlattenChecked(vb);
      FlattenChecked(va + vb) == if ra.Success? && rb.Success? then Success(ra.value + rb.value)
                                 else Failure(NullishPropertyRead)
  {
    var vab := va + vb;
    if FlattenChecked(va).Success? && FlattenChecked(vb).Success? {
      var pab := seq(|vab|, i requires 0 <= i < |vab| => vab[i].value);
      var pa := seq(|va|, i requires 0 <= i < |va| => va[i].value);
      var pb := seq(|vb|, i requires 0 <= i < |vb| => vb[i].value);
      assert pab == pa + pb;
      FlattenAppend(pa, pb);
    } else if FlattenChecked(va).Failure? {
      var i :| 0 <= i < |va| && !va[i].Defined?;
      assert vab[i] == va[i];
    } else {
      var i :| 0 <= i < |vb| && !vb[i].Defined?;
      assert vab[|va| + i] == vb[i];
    }
  }

  /** Flat-mapping a concatenation is the concatenation of the flat-maps, with the indices of the second part shifted. */
  lemma FlatMapAppend<T, U>(a: seq<T>, b: seq<T>, f: (T, nat) -> JsVal<Piece<U>>)
    ensures var ra, rb := FlattenChecked(MapIndexed(a, f)), FlattenChecked(MapIndexed(b, Shifted(f, |a|)));
      FlattenChecked(MapIndexed(a + b, f)) == if ra.Success? && rb.Success? then Success(ra.value + rb.value)
                                              else Failure(NullishPropertyRead)
  {
    var vab, va, vb := MapIndexed(a + b, f), MapIndexed(a, f), MapIndexed(b, Shifted(f, |a|));
    assert vab == va + vb;
    FlattenCheckedAppend(va, vb);
  }

  // ---------------------------------------------------------------------------
  // reduce
  // ---------------------------------------------------------------------------

  /** Left fold: the reducer applied to the accumulator and each element in turn, from the first. */
  function FoldLeft<T>(reducer: (T, T) -> T, acc: T, s: seq<T>): T
  {
    if |s| == 0 then acc else reducer(FoldLeft(reducer, acc, s[..|s| - 1]), s[|s| - 1])
  }

  /** Folding a concatenation folds the second part from the first part's result. */
  lemma {:induction false} FoldLeftAppend<T>(reducer: (T, T) -> T, acc: T, s: seq<T>, t: seq<T>)
    ensures FoldLeft(reducer, acc, s + t) == FoldLeft(reducer, FoldLeft(reducer, acc, s), t)
  {
    if |t| == 0 {
      assert s + t == s;
    } else {
      var u := t[..|t| - 1];
      assert (s + t)[..|s + t| - 1] == s + u;
      FoldLeftAppend(reducer, acc, s, u);
    }
  }

  /**
   * What `reduce`/`reduceArray` return: with an accumulator, the left fold
   * over every element; without one (undefined), the fold seeded with the
   * first element over the rest, and undefined for an empty collection.
   */
  function Reduced<T>(s: seq<T>, reducer: (T, T) -> T, accumulator: Option<T>): (r: Option<T>)
    ensures r.None? <==> accumulator.None? && |s| == 0
    ensures |s| == 0 ==> r == accumulator
    ensures |s| == 1 && accumulator.None? ==> r == Some(s[0])
  {
    match accumulator
    case Some(acc) => Some(FoldLeft(reducer, acc, s))
    case None => if |s| == 0 then None else Some(FoldLeft(reducer, s[0], s[1..]))
  }

  /** Reducing without an accumulator is reducing the rest with the first element as the accumulator. */
  lemma ReducedSeeded<T>(s: seq<T>, reducer: (T, T) -> T)
    requires |s| > 0
    ensures Reduced(s, reducer, None) == Reduced(s[1..], reducer, Some(s[0]))
  {
  }

  /** Reducing in two parts: the first part's result is the accumulator of the second. */
  lemma ReducedAppend<T>(s: seq<T>, t: seq<T>, reducer: (T, T) -> T, acc: T)
    ensures Reduced(s + t, reducer, Some(acc)) == Reduced(t, reducer, Reduced(s, reducer, Some(acc)))
  {
    FoldLeftAppend(reducer, acc, s, t);
  }

  lemma FoldLeftSnoc<T>(reducer: (T, T) -> T, acc: T, s: seq<T>, lo: nat, i: nat)
    requires lo <= i < |s|
    ensures FoldLeft(reducer, acc, s[lo..i + 1]) == reducer(FoldLeft(reducer, acc, s[lo..i]), s[i])
  {
    assert s[lo..i + 1][..i - lo] == s[lo..i];
  }

  /** `reduceArray`: seed from arr[0] when the accumulator is undefined, then fold the remaining indices. */
  method ReduceArray<T>(arr: seq<T>, reducer: (T, T) -> T, accumulator: Option<T>) returns (r: Option<T>)
    ensures r == Reduced(arr, reducer, accumulator)
  {
    var length := |arr|;
    var i := 0;
    if accumulator.None? {
      if length == 0 {
        return None;
      }
      i := 1;
    }
    var lo := i;
    var acc := if accumulator.Some? then accumulator.value else arr[0];
    while i < length
      invariant lo <= i <= length
      invariant acc == FoldLeft(reducer, if accumulator.Some? then accumulator.value else arr[0], arr[lo..i])
    {
      FoldLeftSnoc(reducer, if accumulator.Some? then accumulator.value else arr[0], arr, lo, i);
      acc := reducer(acc, arr[i]);
      i := i + 1;
    }
    assert arr[lo..i] == if accumulator.Some? then arr else arr[1..];
    r := Some(acc);
  }

  /**
   * `reduce`: Arrays go to ReduceArray; otherwise an undefined accumulator is
   * seeded from the iterator's first `next()` value (undefined when it yields
   * nothing) and the same iterator is folded.
   */
  method Reduce<T>(collection: Collection<T>, reducer: (T, T) -> T, accumulator: Option<T>) returns (r: Option<T>)
    ensures r == Reduced(collection.items, reducer, accumulator)
  {
    if collection.ArrayOf? {
      r := ReduceArray(collection.items, reducer, accumulator);
      return;
    }
    var items := collection.items;
    var pos := 0;
    var acc := accumulator;
    if acc.None? {
      if |items| == 0 {
        return None;
      }
      acc := Some(items[0]);
      pos := 1;
    }
    var seed := acc.value;
    var lo := pos;
    while pos < |items|
      invariant lo <= pos <= |items|
      invariant lo == if accumulator.Some? then 0 else 1
      invariant seed == if accumulator.Some? then accumulator.value else items[0]
      invariant acc == Some(FoldLeft(reducer, seed, items[lo..pos]))
    {
      FoldLeftSnoc(reducer, seed, items, lo, pos);
      acc := Some(reducer(acc.value, items[pos]));
      pos := pos + 1;
    }
    assert items[lo..pos] == if accumulator.Some? then items else items[1..];
    r := acc;
  }

  // ---------------------------------------------------------------------------
  // find
  // ---------------------------------------------------------------------------

  /**
   * `findArray`: the first item, in index order, that satisfies the
   * predicate; undefined if none does. `calls` counts the predicate's calls:
   * it is not called again after the first match.
   */
  method FindArray<T>(arr: seq<T>, test: T -> bool) returns (r: Option<T>, ghost calls: nat)
    ensures r.None? <==> forall i :: 0 <= i < |arr| ==> !test(arr[i])
    ensures r.Some? ==> exists i :: 0 <= i < |arr| && arr[i] == r.value && test(arr[i])
                                    && forall j :: 0 <= j < i ==> !test(arr[j])
    ensures r.None? ==> calls == |arr|
    ensures r.Some? ==> 0 < calls <= |arr| && r.value == arr[calls - 1] && test(arr[calls - 1])
                        && forall j :: 0 <= j < calls - 1 ==> !test(arr[j])
  {
    var length := |arr|;
    var i := 0;
    calls := 0;
    while i < length
      invariant 0 <= i <= length && calls == i
      invariant forall j :: 0 <= j < i ==> !test(arr[j])
    {
      var item := arr[i];
      i := i + 1;
      calls := calls + 1;
      if test(item) {
        return Some(item), calls;
      }
    }
    return None, calls;
  }

  /** `find`: Arrays go to FindArray; other iterables are searched with for...of, stopping at the first match. */
  method Find<T>(collection: Collection<T>, test: T -> bool) returns (r: Option<T>, ghost calls: nat)
    ensures r.None? <==> forall i :: 0 <= i < |collection.items| ==> !test(collection.items[i])
    ensures r.Some? ==> exists i :: 0 <= i < |collection.items| && collection.items[i] == r.value
                                    && test(collection.items[i])
                                    && forall j :: 0 <= j < i ==> !test(collection.items[j])
    ensures r.None? ==> calls == |collection.items|
    ensures r.Some? ==> 0 < calls <= |collection.items| && r.value == collection.items[calls - 1]
                        && test(collection.items[calls - 1])
                        && forall j :: 0 <= j < calls - 1 ==> !test(collection.items[j])
  {
    if collection.ArrayOf? {
      r, calls := FindArray(collection.items, test);
      return;
    }
    calls := 0;
    for k := 0 to |collection.items|
      invariant calls == k
      invariant forall j :: 0 <= j < k ==> !test(collection.items[j])
    {
      var item := collection.items[k];
      calls := calls + 1;
      if test(item) {
        return Some(item), calls;
      }
    }
    return None, calls;
  }

  // ---------------------------------------------------------------------------
  // map
  // ---------------------------------------------------------------------------

  /** `mapArray`: one result per item, the i-th being mappingFn(arr[i], i). */
  method MapArray<T, U>(arr: seq<T>, mappingFn: (T, nat) -> U) returns (mapped: seq<U>)
    ensures |mapped| == |arr|
    ensures forall i :: 0 <= i < |arr| ==> mapped[i] == mappingFn(arr[i], i)
  {
    var length := |arr|;
    mapped := [];
    var i := 0;
    while i < length
      invariant 0 <= i <= length && |mapped| == i
      invariant forall j :: 0 <= j < i ==> mapped[j] == mappingFn(arr[j], j)
    {
      mapped := mapped + [mappingFn(arr[i], i)];
      i := i + 1;
    }
  }

  /** `map`: Arrays go to MapArray; other iterables are mapped in iteration order with a counter. */
  method Map<T, U>(collection: Collection<T>, mappingFn: (T, nat) -> U) returns (mapped: seq<U>)
    ensures |mapped| == |collection.items|
    ensures forall i :: 0 <= i < |mapped| ==> mapped[i] == mappingFn(collection.items[i], i)
  {
    if collection.ArrayOf? {
      mapped := MapArray(collection.items, mappingFn);
      return;
    }
    mapped := [];
    var i := 0;
    for k := 0 to |collection.items|
      invariant i == k == |mapped|
      invariant forall j :: 0 <= j < k ==> mapped[j] == mappingFn(collection.items[j], j)
    {
      var item := collection.items[k];
      mapped := mapped + [mappingFn(item, i)];
      i := i + 1;
    }
  }
}
