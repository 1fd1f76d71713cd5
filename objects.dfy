/**
 * The object helpers of packages/collections/src/objects.js: `prop` with a
 * default, `props`, an own-property `pick`, and `pluck`.
 */
module Objects {
  import opened Wrappers
  import opened JsValues
  import PropReaders

  /** The closure `prop(key, defaultVal)` returns: it captures the key and the default. */
  datatype Getter<K, T> = Getter(key: K, default: JsVal<T>)

  /** `prop(key, defaultVal)`: an omitted default is undefined. */
  function MakeGetter<K, T>(key: K, default: Option<JsVal<T>>): (g: Getter<K, T>)
    ensures g.key == key
    ensures default.None? ==> g.default == Undefined
    ensures default.Some? ==> g.default == default.value
  {
    Getter(key, if default.Some? then default.value else Undefined)
  }

  /** `obj?.[key] ?? defaultVal`: the value read, unless it is null or undefined. */
  function Apply<K, T>(g: Getter<K, T>, obj: Target<K, T>): (v: JsVal<T>)
    ensures v == Get(obj, g.key) || v == g.default
    ensures !IsNullish(g.default) ==> !IsNullish(v)
    ensures obj.Object? && g.key in obj.own && obj.own[g.key].Defined? ==> v == obj.own[g.key]
  {
    var v := Get(obj, g.key);
    if IsNullish(v) then g.default else v
  }

  /**
   * The getter agrees with the single-key reader of prop.js, except that a
   * value read as null or undefined is replaced by the default.
   */
  lemma ApplyIsDefaultedRead<K, T>(g: Getter<K, T>, obj: Target<K, T>)
    ensures !IsNullish(Get(obj, g.key)) ==> Apply(g, obj) == Get(obj, g.key)
    ensures IsNullish(Get(obj, g.key)) ==> Apply(g, obj) == g.default
    ensures obj.Nullish? ==> Apply(g, obj) == g.default
  {
  }

  /** With a default that is not null or undefined, the getter never yields null or undefined. */
  lemma ApplyNeverNullish<K, T>(g: Getter<K, T>, obj: Target<K, T>)
    requires !IsNullish(g.default)
    ensures !IsNullish(Apply(g, obj))
  {
  }

  /** With no default, only a null read differs from prop.js's `obj?.[key]`: it becomes undefined. */
  lemma NoDefaultRead<K, T>(key: K, obj: Target<K, T>)
    ensures Apply(MakeGetter(key, None), obj) == (if Get(obj, key).Null? then Undefined else Get(obj, key))
  {
  }

  /** The closure `props(...keys)` returns: it captures the keys. */
  datatype PropsReader<K> = PropsReader(keys: seq<K>)

  /** `props(...keys)`: no keys is refused before any reader is built. */
  function Props<K>(keys: seq<K>): (r: Result<PropsReader<K>, TypeError>)
    ensures r.Success? <==> |keys| > 0
    ensures r.Failure? ==> r.error == TypeError("Expected at least one argument")
    ensures r.Success? ==> r.value.keys == keys
  {
    if |keys| == 0 then Failure(TypeError("Expected at least one argument"))
    else Success(PropsReader(keys))
  }

  /**
   * The reader of `props`, as written: undefined (None) for a null or
   * undefined obj, otherwise `keys.map(key => prop(key, obj[key]))`, one
   * getter per key whose default is the value obj holds there.
   */
  function PropsApply<K, T>(reader: PropsReader<K>, obj: Target<K, T>): (r: Option<seq<Getter<K, T>>>)
    ensures r.None? <==> obj.Nullish?
    ensures r.Some? ==> |r.value| == |reader.keys|
    ensures r.Some? ==> forall i :: 0 <= i < |r.value| ==> r.value[i].key == reader.keys[i]
  {
    if obj.Nullish? then None
    else Some(seq(|reader.keys|, i requires 0 <= i < |reader.keys| => MakeGetter(reader.keys[i], Some(Get(obj, reader.keys[i])))))
  }

  /**
   * As written, `props('a')({a: 1})` is an array holding a getter, not `[1]`:
   * applied to `{a: 2}` that getter yields 2.
   */
  lemma PropsYieldsGetters()
    ensures var obj: Target<string, int> := Object(map["a" := Defined(1)], map[]);
            var other: Target<string, int> := Object(map["a" := Defined(2)], map[]);
            var r := PropsApply(PropsReader(["a"]), obj);
            r.Some? && |r.value| == 1 && Apply(r.value[0], other) == Defined(2)
  {
    var obj: Target<string, int> := Object(map["a" := Defined(1)], map[]);
    var r := PropsApply(PropsReader(["a"]), obj);
    assert r.value[0] == Getter("a", Defined(1));
  }

  /**
   * The reader of `props` as its documentation describes it: undefined for a
   * null or undefined obj, otherwise the values obj holds at the keys, in key
   * order.
   */
  function PropsValues<K, T>(reader: PropsReader<K>, obj: Target<K, T>): (r: Option<seq<JsVal<T>>>)
    ensures r.None? <==> obj.Nullish?
    ensures r.Some? ==> |r.value| == |reader.keys|
  {
    if obj.Nullish? then None
    else Some(seq(|reader.keys|, i requires 0 <= i < |reader.keys| => Get(obj, reader.keys[i])))
  }

  /** Reading each as-written getter back on the same obj gives the documented values. */
  lemma PropsGettersReadBack<K, T>(reader: PropsReader<K>, obj: Target<K, T>, i: nat)
    requires obj.Object? && i < |reader.keys|
    ensures Apply(PropsApply(reader, obj).value[i], obj) == PropsValues(reader, obj).value[i]
  {
    var g := PropsApply(reader, obj).value[i];
    assert g == Getter(reader.keys[i], Get(obj, reader.keys[i]));
  }

  /** The object `pick(...keys)(obj)` builds: the listed keys that are own properties of obj, with their values. */
  function PickedOwn<K, T>(keys: seq<K>, obj: Target<K, T>): (m: map<K, JsVal<T>>)
    requires obj.Object?
    ensures forall k :: k in m ==> k in keys && k in obj.own && m[k] == obj.own[k]
    ensures forall i :: 0 <= i < |keys| && keys[i] in obj.own ==> keys[i] in m
  {
    map k | k in keys && HasOwnProperty(obj, k) :: Get(obj, k)
  }

  /**
   * `pick(...keys)(obj)`: walks the keys in order and copies each own
   * property; `hasOwnProperty.call` on null or undefined throws, which
   * happens as soon as there is a key to test.
   */
  method Pick<K, T>(keys: seq<K>, obj: Target<K, T>) returns (r: Result<map<K, JsVal<T>>, TypeError>)
    ensures r.Failure? <==> obj.Nullish? && |keys| > 0
    ensures r.Failure? ==> r.error == NullishToObject
    ensures r.Success? ==> forall k :: k in r.value <==> k in keys && obj.Object? && HasOwnProperty(obj, k)
    ensures r.Success? ==> forall k :: k in r.value ==> obj.Object? && k in obj.own && r.value[k] == obj.own[k]
    ensures r.Success? && obj.Object? ==> r.value == PickedOwn(keys, obj)
  {
    var newObj: map<K, JsVal<T>> := map[];
    for i := 0 to |keys|
      invariant i > 0 ==> obj.Object?
      invariant forall k :: k in newObj <==> k in keys[..i] && obj.Object? && HasOwnProperty(obj, k)
      invariant forall k :: k in newObj ==> obj.Object? && k in obj.own && newObj[k] == obj.own[k]
    {
      var key := keys[i];
      if obj.Nullish? {
        return Failure(NullishToObject);
      }
      if HasOwnProperty(obj, key) {
        newObj := newObj[key := Get(obj, key)];
      }
      assert keys[..i + 1] == keys[..i] + [key];
    }
    assert keys[..|keys|] == keys;
    return Success(newObj);
  }

  /**
   * The own-property pick keeps a part of what prop.js's `in`-based pick
   * keeps, with the same values; the two agree on objects that inherit
   * nothing.
   */
  lemma OwnPickWithinInPick<K, T>(keys: seq<K>, obj: Target<K, T>)
    requires obj.Object?
    ensures PickedOwn(keys, obj).Keys <= PropReaders.PickedIn(keys, obj).Keys
    ensures forall k :: k in PickedOwn(keys, obj) ==> PickedOwn(keys, obj)[k] == PropReaders.PickedIn(keys, obj)[k]
    ensures obj.inherited == map[] ==> PickedOwn(keys, obj) == PropReaders.PickedIn(keys, obj)
  {
    var own, inn := PickedOwn(keys, obj), PropReaders.PickedIn(keys, obj);
    forall k | k in own
      ensures k in inn && own[k] == inn[k]
    {
    }
    if obj.inherited == map[] {
      assert own.Keys == inn.Keys;
    }
  }

  /**
   * `pluck(collection, key)`: `collection.length` on null or undefined throws;
   * otherwise `collection[i][key]` for each i in order, which throws at the
   * first element that is null or undefined.
   */
  method Pluck<K, T>(collection: JsVal<seq<Target<K, T>>>, key: K) returns (r: Result<seq<JsVal<T>>, TypeError>)
    ensures collection.Defined? ==>
              (r.Success? <==> forall i :: 0 <= i < |collection.value| ==> collection.value[i].Object?)
    ensures !collection.Defined? ==> r == Failure(NullishPropertyRead)
    ensures r.Failure? ==> r.error == NullishPropertyRead
    ensures r.Success? ==> collection.Defined? && |r.value| == |collection.value|
    ensures r.Success? ==> forall i :: 0 <= i < |r.value| ==> r.value[i] == Get(collection.value[i], key)
  {
    if !collection.Defined? {
      return Failure(NullishPropertyRead);
    }
    var items := collection.value;
    var length := |items|;
    var plucked: seq<JsVal<T>> := [];
    var i := 0;
    while i < length
      invariant 0 <= i <= length
      invariant |plucked| == i
      invariant forall j :: 0 <= j < i ==> items[j].Object? && plucked[j] == Get(items[j], key)
    {
      if items[i].Nullish? {
        return Failure(NullishPropertyRead);
      }
      plucked := plucked + [Get(items[i], key)];
      i := i + 1;
    }
    return Success(plucked);
  }
}
