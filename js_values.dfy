/**
 * The few JavaScript notions the collection helpers (packages/collections/src)
 * depend on: property values that may be null or undefined, objects with own
 * and inherited properties, arguments that may or may not be functions, the
 * TypeErrors the helpers and the engine throw, and the flattening both
 * flatMap variants perform.
 */
module JsValues {

  /** A property value as a read returns it: `undefined`, `null`, or any other value. */
  datatype JsVal<+T> = Undefined | Null | Defined(value: T)

  /** The values `??` and `== null` treat as missing. */
  predicate IsNullish<T>(v: JsVal<T>)
  {
    v.Undefined? || v.Null?
  }

  /**
   * The receiver of a property read: `null` or `undefined`, or an object given
   * by its own properties and the properties it inherits along its prototype
   * chain (an own property shadows an inherited one).
   */
  datatype Target<K, T> = Nullish(isNull: bool) | Object(own: map<K, JsVal<T>>, inherited: map<K, JsVal<T>>)

  /** `obj?.[key]`: undefined on a nullish receiver and for a key that is nowhere on the chain. */
  function Get<K, T>(obj: Target<K, T>, key: K): (v: JsVal<T>)
    ensures obj.Nullish? ==> v == Undefined
    ensures obj.Object? && key in obj.own ==> v == obj.own[key]
    ensures obj.Object? && key !in obj.own && key in obj.inherited ==> v == obj.inherited[key]
    ensures obj.Object? && key !in obj.own && key !in obj.inherited ==> v == Undefined
  {
    match obj
    case Nullish(_) => Undefined
    case Object(own, inherited) =>
      if key in own then own[key]
      else if key in inherited then inherited[key]
      else Undefined
  }

  /** `key in obj` on an object: the key is own or inherited. */
  predicate HasProperty<K, T>(obj: Target<K, T>, key: K)
    requires obj.Object?
  {
    key in obj.own || key in obj.inherited
  }

  /** `Object.prototype.hasOwnProperty.call(obj, key)` on an object. */
  predicate HasOwnProperty<K, T>(obj: Target<K, T>, key: K)
    requires obj.Object?
  {
    key in obj.own
  }

  /** An argument the helpers expect to be a function: a callable value, or anything else. */
  datatype Callable<F> = Function(call: F) | NotFunction

  /**
   * A TypeError: one the helpers throw with their own message, or one the
   * engine throws (its wording is the engine's, so only its cause is kept).
   */
  datatype TypeError =
    | TypeError(message: string)
    | NullishPropertyRead    // reading a property of null or undefined
    | InOnNonObject          // `key in obj` with a null or undefined obj
    | NullishToObject        // hasOwnProperty.call(obj, key) with a null or undefined obj

  /**
   * One mapped result, as a flat-map sees it: spread element by element into
   * the output, or appended as a single element. Which JavaScript values are
   * spread differs between the two flat-maps (any iterable for
   * packages/collections/src/arrays.js, only Arrays for
   * packages/collections/src/flatMap.js), so each caller decides.
   */
  datatype Piece<+U> = Spread(items: seq<U>) | Single(item: U)

  /** The elements a piece contributes to the output. */
  function Items<U>(p: Piece<U>): seq<U>
  {
    match p
    case Spread(items) => items
    case Single(item) => [item]
  }

  /** The pieces' contributions, concatenated in order. */
  function Flatten<U>(ps: seq<Piece<U>>): seq<U>
  {
    if |ps| == 0 then [] else Flatten(ps[..|ps| - 1]) + Items(ps[|ps| - 1])
  }

  /** Extending the pieces by one extends the output by that piece's items. */
  lemma FlattenSnoc<U>(ps: seq<Piece<U>>, i: nat)
    requires i < |ps|
    ensures Flatten(ps[..i + 1]) == Flatten(ps[..i]) + Items(ps[i])
  {
    assert ps[..i + 1][..i] == ps[..i];
  }

  /** Flattening distributes over concatenation of the pieces. */
  lemma {:induction false} FlattenAppend<U>(a: seq<Piece<U>>, b: seq<Piece<U>>)
    ensures Flatten(a + b) == Flatten(a) + Flatten(b)
  {
    if |b| == 0 {
      assert a + b == a;
    } else {
      var c := b[..|b| - 1];
      assert (a + b)[..|a + b| - 1] == a + c;
      FlattenAppend(a, c);
    }
  }

  /** Pieces that are all single values flatten to those values, one per piece. */
  lemma {:induction false} FlattenSingles<U>(ps: seq<Piece<U>>)
    requires forall i :: 0 <= i < |ps| ==> ps[i].Single?
    ensures |Flatten(ps)| == |ps|
    ensures forall i :: 0 <= i < |ps| ==> Flatten(ps)[i] == ps[i].item
  {
    if |ps| > 0 {
      FlattenSingles(ps[..|ps| - 1]);
    }
  }

  /** Pieces that all contribute n items flatten to n items per piece. */
  lemma {:induction false} FlattenUniformLength<U>(ps: seq<Piece<U>>, n: nat)
    requires forall i :: 0 <= i < |ps| ==> |Items(ps[i])| == n
    ensures |Flatten(ps)| == |ps| * n
  {
    if |ps| > 0 {
      FlattenUniformLength(ps[..|ps| - 1], n);
    }
  }

  /** When all pieces contribute n items, piece i's j-th item lands at i * n + j. */
  lemma {:induction false} FlattenUniformAt<U>(ps: seq<Piece<U>>, n: nat, i: nat, j: nat)
    requires forall k :: 0 <= k < |ps| ==> |Items(ps[k])| == n
    requires i < |ps| && j < n
    ensures i * n + j < |Flatten(ps)| && Flatten(ps)[i * n + j] == Items(ps[i])[j]
  {
    var m := |ps| - 1;
    var head := ps[..m];
    FlattenUniformLength(ps, n);
    FlattenUniformLength(head, n);
    if i < m {
      FlattenUniformAt(head, n, i, j);
      MulLeq(i + 1, m, n);
      assert i * n + j < |Flatten(head)|;
    } else {
      assert i * n + j == |Flatten(head)| + j;
    }
  }

  /** Multiplying by a natural number keeps an ordering. */
  lemma MulLeq(a: int, b: int, n: nat)
    requires a <= b
    ensures a * n <= b * n
  {
  }
}
