/**
 * The entries-based flatMap and flatMapObj (packages/collections/src/flatMap.js).
 *
 * Both guard their arguments with runtime type checks, then walk entries in
 * order, calling mappingFn(value, key) and concatenating: an Array result is
 * spread one level (`Array.prototype.concat`), any other result is appended
 * as one element.
 */
module FlatMaps {
  import opened Wrappers
  import opened JsValues

  /**
   * The `collection` argument of flatMap: a value with an `entries()` method
   * (an Array, Map or Set, given by the [key, value] pairs it yields), another
   * value with its `typeof`, or null/undefined.
   */
  datatype Collection<K, V> = WithEntries(entries: seq<(K, V)>) | WithoutEntries(typeOf: string) | Nullish(isNull: bool)

  /** `typeof(collection)`; note that `typeof null` is "object". */
  function TypeOf<K, V>(c: Collection<K, V>): (t: string)
    ensures c.WithEntries? ==> t == "object"
    ensures c.Nullish? ==> (t == "object" <==> c.isNull) && (t == "undefined" <==> !c.isNull)
  {
    match c
    case WithEntries(_) => "object"
    case WithoutEntries(t) => t
    case Nullish(isNull) => if isNull then "object" else "undefined"
  }

  /** The `obj` argument of flatMapObj: a plain object by its `Object.entries`, or another value with its `typeof`. */
  datatype ObjectArg<V> = PlainObject(entries: seq<(string, V)>) | NotPlainObject(typeOf: string)

  /** The pieces mappingFn(value, key) for each entry, in entry order. */
  function EntryPieces<K, V, U>(entries: seq<(K, V)>, f: (V, K) -> Piece<U>): (ps: seq<Piece<U>>)
    ensures |ps| == |entries|
  {
    seq(|entries|, i requires 0 <= i < |entries| => f(entries[i].1, entries[i].0))
  }

  /** The entry walk of both functions: `flattend = flattend.concat(mappingFn(value, key))` for each entry. */
  method ConcatEntries<K, V, U>(entries: seq<(K, V)>, mappingFn: (V, K) -> Piece<U>) returns (flattend: seq<U>)
    ensures flattend == Flatten(EntryPieces(entries, mappingFn))
  {
    ghost var ps := EntryPieces(entries, mappingFn);
    flattend := [];
    for i := 0 to |entries|
      invariant flattend == Flatten(ps[..i])
    {
      var (key, value) := entries[i];
      FlattenSnoc(ps, i);
      flattend := flattend + Items(mappingFn(value, key));
    }
    assert ps[..|entries|] == ps;
  }

  /**
   * `flatMap(mappingFn, collection)`: a non-function mappingFn is refused
   * first (the message names `typeof(collection)`), then a collection without
   * an `entries` function; reading `entries` of null or undefined throws.
   */
  method FlatMap<K, V, U>(mappingFn: Callable<(V, K) -> Piece<U>>, collection: Collection<K, V>) returns (r: Result<seq<U>, TypeError>)
    ensures mappingFn.NotFunction? ==> r == Failure(TypeError(TypeOf(collection) + " is not a Function"))
    ensures mappingFn.Function? && collection.Nullish? ==> r == Failure(NullishPropertyRead)
    ensures mappingFn.Function? && collection.WithoutEntries? ==>
              r == Failure(TypeError(collection.typeOf + " is not an Array, Map, or Set"))
    ensures r.Success? <==> mappingFn.Function? && collection.WithEntries?
    ensures r.Success? ==> r.value == Flatten(EntryPieces(collection.entries, mappingFn.call))
  {
    if mappingFn.NotFunction? {
      return Failure(TypeError(TypeOf(collection) + " is not a Function"));
    }
    match collection
    case Nullish(_) =>
      return Failure(NullishPropertyRead);
    case WithoutEntries(t) =>
      return Failure(TypeError(t + " is not an Array, Map, or Set"));
    case WithEntries(entries) =>
      var flattend := ConcatEntries(entries, mappingFn.call);
      return Success(flattend);
  }

  /**
   * `flatMapObj(mappingFn, obj)`: a non-function mappingFn is refused first,
   * then anything that is not a plain object; otherwise the entries of
   * `Object.entries(obj)` are walked in order.
   */
  method FlatMapObj<V, U>(mappingFn: Callable<(V, string) -> Piece<U>>, obj: ObjectArg<V>) returns (r: Result<seq<U>, TypeError>)
    ensures mappingFn.NotFunction? ==>
              r == Failure(TypeError((if obj.PlainObject? then "object" else obj.typeOf) + " is not a Function"))
    ensures mappingFn.Function? && obj.NotPlainObject? ==> r == Failure(TypeError(obj.typeOf + " is not an Object"))
    ensures r.Success? <==> mappingFn.Function? && obj.PlainObject?
    ensures r.Success? ==> r.value == Flatten(EntryPieces(obj.entries, mappingFn.call))
  {
    var typeOf := if obj.PlainObject? then "object" else obj.typeOf;
    if mappingFn.NotFunction? {
      return Failure(TypeError(typeOf + " is not a Function"));
    }
    if obj.NotPlainObject? {
      return Failure(TypeError(typeOf + " is not an Object"));
    }
    var flattend := ConcatEntries(obj.entries, mappingFn.call);
    return Success(flattend);
  }

  /** `Array.prototype.entries()`: each element keyed by its index. */
  function ArrayEntries<V>(items: seq<V>): (es: seq<(nat, V)>)
    ensures |es| == |items|
  {
    seq(|items|, i requires 0 <= i < |items| => (i as nat, items[i]))
  }

  /** `Set.prototype.entries()`: each element keyed by itself. */
  function SetEntries<V>(items: seq<V>): (es: seq<(V, V)>)
    ensures |es| == |items|
  {
    seq(|items|, i requires 0 <= i < |items| => (items[i], items[i]))
  }

  /** An empty collection flat-maps to the empty array. */
  lemma EmptyEntries<K, V, U>(f: (V, K) -> Piece<U>)
    ensures Flatten(EntryPieces([], f)) == []
  {
  }

  /** For an Array, mappingFn sees each element with its index as the key. */
  lemma ArrayKeysAreIndices<V, U>(items: seq<V>, f: (V, nat) -> Piece<U>)
    ensures Flatten(EntryPieces(ArrayEntries(items), f))
         == Flatten(seq(|items|, i requires 0 <= i < |items| => f(items[i], i)))
  {
    assert EntryPieces(ArrayEntries(items), f) == seq(|items|, i requires 0 <= i < |items| => f(items[i], i));
  }

  /** For a Set, mappingFn sees each element as both value and key. */
  lemma SetKeysAreValues<V, U>(items: seq<V>, f: (V, V) -> Piece<U>)
    ensures Flatten(EntryPieces(SetEntries(items), f))
         == Flatten(seq(|items|, i requires 0 <= i < |items| => f(items[i], items[i])))
  {
    assert EntryPieces(SetEntries(items), f) == seq(|items|, i requires 0 <= i < |items| => f(items[i], items[i]));
  }

  /**
   * When every mapped result contributes n elements, the output has n elements
   * per entry, in entry order: entry i's j-th element is at i * n + j.
   */
  lemma UniformSpread<K, V, U>(entries: seq<(K, V)>, f: (V, K) -> Piece<U>, n: nat, i: nat, j: nat)
    requires forall k :: 0 <= k < |entries| ==> |Items(f(entries[k].1, entries[k].0))| == n
    requires i < |entries| && j < n
    ensures |Flatten(EntryPieces(entries, f))| == |entries| * n
    ensures i * n + j < |Flatten(EntryPieces(entries, f))|
            && Flatten(EntryPieces(entries, f))[i * n + j] == Items(f(entries[i].1, entries[i].0))[j]
  {
    var ps := EntryPieces(entries, f);
    forall k | 0 <= k < |ps|
      ensures |Items(ps[k])| == n
    {
      assert ps[k] == f(entries[k].1, entries[k].0);
    }
    FlattenUniformLength(ps, n);
    FlattenUniformAt(ps, n, i, j);
  }
}
