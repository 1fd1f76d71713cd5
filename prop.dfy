/**
 * The key readers of packages/collections/src/prop.js: `prop(...keys)` builds
 * a reader of one value or of an array of values, and `pick(...keys)` builds a
 * function that copies the listed keys an object has (own or inherited) into
 * a new object.
 */
module PropReaders {
  import opened Wrappers
  import opened JsValues

  /** The closure `fromObj` that `prop(...keys)` returns: it captures the keys. */
  datatype Accessor<K> = Accessor(keys: seq<K>)

  /** What `fromObj` returns: one value for a single key, an array of values otherwise. */
  datatype Values<T> = One(value: JsVal<T>) | Many(values: seq<JsVal<T>>)

  /** `prop(...keys)`: no keys is refused before any reader is built. */
  function Prop<K>(keys: seq<K>): (r: Result<Accessor<K>, TypeError>)
    ensures r.Success? <==> |keys| > 0
    ensures r.Failure? ==> r.error == TypeError("Expected at least one argument")
    ensures r.Success? ==> r.value.keys == keys
  {
    if |keys| == 0 then Failure(TypeError("Expected at least one argument"))
    else Success(Accessor(keys))
  }

  /**
   * `fromObj(obj)`: with one key, `obj?.[key]`; otherwise the values
   * `obj?.[key]` pushed in key order.
   */
  method FromObj<K, T>(acc: Accessor<K>, obj: Target<K, T>) returns (r: Values<T>)
    ensures |acc.keys| == 1 ==> r == One(Get(obj, acc.keys[0]))
    ensures |acc.keys| != 1 ==> r.Many? && |r.values| == |acc.keys|
    ensures r.Many? ==> forall i :: 0 <= i < |r.values| ==> r.values[i] == Get(obj, acc.keys[i])
  {
    var keys := acc.keys;
    if |keys| == 1 {
      return One(Get(obj, keys[0]));
    }
    var values: seq<JsVal<T>> := [];
    for i := 0 to |keys|
      invariant |values| == i
      invariant forall j :: 0 <= j < i ==> values[j] == Get(obj, keys[j])
    {
      values := values + [Get(obj, keys[i])];
    }
    return Many(values);
  }

  /** `key in obj` holds for every key that reads as something other than undefined. */
  lemma DefinedReadIsPresent<K, T>(obj: Target<K, T>, key: K)
    requires !Get(obj, key).Undefined?
    ensures obj.Object? && HasProperty(obj, key)
  {
  }

  /**
   * The object `pick(...keys)(obj)` builds: the listed keys that are `in` obj,
   * each with the value `obj[key]` reads.
   */
  function PickedIn<K, T>(keys: seq<K>, obj: Target<K, T>): (m: map<K, JsVal<T>>)
    requires obj.Object?
    ensures forall k :: k in m ==> k in keys && HasProperty(obj, k) && m[k] == Get(obj, k)
    ensures forall i :: 0 <= i < |keys| && HasProperty(obj, keys[i]) ==> keys[i] in m
    ensures forall k :: k in m && k !in obj.own ==> k in obj.inherited && m[k] == obj.inherited[k]
  {
    map k | k in keys && HasProperty(obj, k) :: Get(obj, k)
  }

  /**
   * `pick(...keys)(obj)`: walks the keys in order and copies each one that is
   * `in` obj; `in` on null or undefined throws, which happens as soon as there
   * is a key to test.
   */
  method Pick<K, T>(keys: seq<K>, obj: Target<K, T>) returns (r: Result<map<K, JsVal<T>>, TypeError>)
    ensures r.Failure? <==> obj.Nullish? && |keys| > 0
    ensures r.Failure? ==> r.error == InOnNonObject
    ensures r.Success? ==> forall k :: k in r.value <==> k in keys && obj.Object? && HasProperty(obj, k)
    ensures r.Success? ==> forall k :: k in r.value ==> r.value[k] == Get(obj, k)
    ensures r.Success? && obj.Object? ==> r.value == PickedIn(keys, obj)
  {
    var newObj: map<K, JsVal<T>> := map[];
    for i := 0 to |keys|
      invariant i > 0 ==> obj.Object?
      invariant forall k :: k in newObj <==> k in keys[..i] && obj.Object? && HasProperty(obj, k)
      invariant forall k :: k in newObj ==> newObj[k] == Get(obj, k)
    {
      var key := keys[i];
      if obj.Nullish? {
        return Failure(InOnNonObject);
      }
      if HasProperty(obj, key) {
        newObj := newObj[key := Get(obj, key)];
      }
      assert keys[..i + 1] == keys[..i] + [key];
    }
    assert keys[..|keys|] == keys;
    return Success(newObj);
  }

  /** With no keys, pick builds an empty object whatever it is given. */
  lemma PickNoKeys<K, T>(obj: Target<K, T>)
    requires obj.Object?
    ensures PickedIn([], obj) == map[]
  {
  }
}
