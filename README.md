# Range and collection helpers of JS-Snippets, in Dafny

This project models two packages of the JS-Snippets repository and proves
properties of the model.

**`Range`** (packages/range) is a Python-style integer range.
- `new Range(stop)`, `new Range(start, stop)` or `new Range(start, stop, step)` checks its arguments in a fixed order: arity, then integers, then a zero step.
- `length` is `ceil(|stop - start| / |step|)`.
- `index(i)` accepts `-length <= i < length` and wraps a negative index once.
- `slice(start, stop, step)` computes a new Range from clamped, wrapped positions, with `null`/`undefined` bounds meaning "from the end in the slice's direction".
- Iterating a Range hands out a fresh `_RangeIterator`. That is a cursor over (start, step, length) whose `next()` returns `start + index * step` and then advances `index`.

In the model:
- `Ranges` (range.dfy) holds the Range as an immutable datatype with the subset type `ValidRange` (step non-zero).
- `RangeIterators` (range_iterator.dfy) holds the iterator as a class whose `Next` updates `index` in place.
- `Ranges.ToSeq` drives that class to the end and is proved to yield exactly `Elems(r)`: `length` values `start + i * step`.

**Collection helpers** (packages/collections/src):
- `arrays.js`: `map`, `find`, `reduce` and `flatMap` over Arrays and other iterables. Each has an Array loop and an iterator loop, and both loops are proved against the same contract: a specification function (`FlattenChecked`, `Reduced`) for `flatMap` and `reduce`, and the same element-wise ensures for `find` and `map`.
- `flatMap.js`: the entries-based `flatMap`/`flatMapObj` with their TypeError guards. Each is a loop of `concat` calls, specified by `Flatten` of the mapped pieces.
- `prop.js`: the multi-key `prop` reader and the `in`-based `pick`.
- `objects.js`: `prop` with a default, `props`, the own-property `pick`, and `pluck`.

The shared JavaScript notions live in `JsValues` (js_values.dfy):
- values that may be `null` or `undefined`;
- objects with own and inherited properties;
- arguments that may not be functions;
- the TypeErrors thrown;
- the "spread an iterable, otherwise append" pieces a flat-map concatenates.

Closures returned by `prop`, `props` and `pick` are represented by a datatype holding what they capture, plus a function or method that applies it.

## Model

| member | source | states |
|---|---|---|
| Ranges.CeilDiv | packages/range/src/main.js:159 | the quotient is the least q with q * m >= d (the exact integer `Math.ceil` of the division) |
| Ranges.CeilDivUnique | packages/range/src/main.js:159 | any q with q * m >= d > (q - 1) * m is the ceiling, so the ceiling is unique |
| Ranges.CeilDivScale | packages/range/src/main.js:154-160 | scaling span and step by the same factor leaves the length unchanged |
| Ranges.New | packages/range/src/main.js:15-47 | no arguments gives the arity RangeError; then any non-integer gives the TypeError; success exactly when there are arguments, all integers, and not a third argument 0, which alone gives the zero-step RangeError; three arguments give (a, b, c), two give (a, b, 1), and one or more than three give (0, args[0], 1) |
| Ranges.Length | packages/range/src/main.js:154-160 | length * abs(step) covers abs(stop - start), and one step fewer does not |
| Ranges.Elems | packages/range/src/internals/_range-iterator.js:22-28 | the values iteration yields, one per index below length |
| Ranges.GetItem | packages/range/src/main.js:95-101 | a negative index is shifted by length once; a position inside the range reads that element |
| Ranges.WithinBounds | packages/range/src/main.js:85-88 | an index is within bounds exactly when its one negative wrap lands on a position in [0, length) |
| Ranges.Index | packages/range/src/main.js:55-60 | succeeds exactly for -length <= i < length, returning the element at the wrapped position; otherwise the error names the index |
| Ranges.IndexNegativeMirror | packages/range/src/main.js:55-60 | index(i - length) and index(i) agree and equal start + i * step |
| Ranges.ElemsBeforeStop | packages/range/src/main.js:154-160 | when the step points from start towards stop, i < length exactly when start + i * step has not reached stop |
| Ranges.ElemsMoveAwayFromStop | packages/range/src/internals/_range-iterator.js:22-28 | when the step points away from stop, the range is still non-empty and every yielded value moves further from stop |
| Ranges.StartPosition | packages/range/src/main.js:115-125 | a given start is wrapped once by length and clamped to [0, length]: the wrapped index when inside, 0 below, length above; an omitted start is the last position for a negative step and 0 otherwise |
| Ranges.StopPosition | packages/range/src/main.js:127-136 | a given stop is wrapped once and clamped to [-(length + 1), hi], hi being length - 1 for a negative step and length otherwise, then wrapped again by `_getitem`: the wrapped index when in [0, hi], hi above it, wrapped index + length when in [-(length + 1), 0), and -1 below; an omitted stop is -1 for a negative step and length otherwise |
| Ranges.CalcSlice | packages/range/src/main.js:110-140 | the new start and stop are r's values at the clamped start and stop positions (r's elements there when the position is inside the range), and the new step is the slice step, null counting as 0, times the range's step |
| Ranges.Slice | packages/range/src/main.js:70-78 | slice step 0 gives "slice step must not be zero"; a null step reaches the constructor as 0 and gives "step must not be zero"; success exactly for a non-zero step, with the multiplied step |
| Ranges.StridedRange | packages/range/src/main.js:110-140 | a range from position p to q with step k * step has ceil(abs(q - p) / abs(k)) elements, the i-th at position p + i * k |
| Ranges.StridedLength | packages/range/src/main.js:154-160 | the length of such a strided range, in positions |
| Ranges.SliceIsStridedRange | packages/range/src/main.js:70-78 | a successful slice is the range from the start position's element to the stop position's element with the multiplied step |
| Ranges.SliceElems | packages/range/src/main.js:70-140 | a slice's i-th element is the original's value at position p + i * k, and its length is ceil(abs(q - p) / abs(k)) |
| Ranges.ForwardSliceSubsequence | packages/range/src/main.js:110-140 | with a positive slice step and start position <= stop position, every slice element is an element of the original, every k-th from p |
| Ranges.ForwardStrideBetween | packages/range/src/main.js:110-140 | stepping forward from p by a positive k stays in [p, q) for fewer than ceil((q - p) / k) steps |
| Ranges.ForwardStrideWithin | packages/range/src/main.js:110-140 | a stride-k walk from position p towards q inside [0, length] reads only elements of the original, element p + i * k at step i |
| Ranges.BackwardStrideBetween | packages/range/src/main.js:110-140 | stepping back from p by a negative k stays strictly above q for fewer than ceil((p - q) / -k) steps |
| Ranges.ReverseSliceSubsequence | packages/range/src/main.js:110-140 | with a negative slice step and stop position <= start position < length, every slice element is an element of the original, every abs(k)-th going back from p |
| Ranges.FullReverseSlice | range/test/range.test.js:105-114 | slice(null, null, -1) succeeds, negates the step, and yields the original's elements in reverse order |
| Ranges.ForwardSlice | range/test/range.test.js:68-75 | for 0 <= a <= b <= length, slice(a, b) is the range from element a to element b with the same step, yielding exactly elements a..b |
| Ranges.DirectionMismatchYields | packages/range/src/main.js:154-160 | Range(0, 10, -1) has length 10 and yields 0, -1, ..., -9 |
| Ranges.NegativeStopWrapsTwice | packages/range/src/main.js:131-135 | Range(0, 10).slice(undefined, -15) is Range(0, 5, 1): the stop is wrapped in _calcSlice and again in _getitem |
| Ranges.CrossedSliceBoundsYield | packages/range/src/main.js:110-140 | Range(0, 10).slice(5, 2) is Range(5, 2, 1), which yields 5, 6, 7 rather than nothing: a start past the stop is not clamped to the stop |
| Ranges.CrossedSliceLeavesRange | packages/range/src/main.js:110-140 | Range(0, 10).slice(10, 0) is Range(10, 0, 1) of length 10, which yields 10..19: crossed bounds can produce values none of which belong to the sliced range |
| Ranges.ReversedSliceStartsAtLength | packages/range/src/main.js:120-124 | Range(0, 10).slice(10, undefined, -1) is Range(10, -1, -1), whose first value 10 is not an element of Range(0, 10) |
| Ranges.Iterate | packages/range/src/main.js:146-148 | a fresh iterator carrying the range's start, stop, step and length, at index 0 |
| Ranges.ToSeq | packages/range/src/internals/_range-iterator.js:22-28 | calling next() until done yields exactly the range's elements, in order |
| RangeIterators.RangeIterator.constructor | packages/range/src/internals/_range-iterator.js:9-15 | the snapshot of start, stop, step and length, with index 0 |
| RangeIterators.RangeIterator.Iterator | packages/range/src/internals/_range-iterator.js:18-20 | the iterator is its own iterable |
| RangeIterators.RangeIterator.Next | packages/range/src/internals/_range-iterator.js:22-28 | value is start + index * step, done exactly when index >= length, index always advances, and an exhausted iterator stays exhausted |
| JsValues.Get | packages/collections/src/prop.js:30 | `obj?.[key]`: undefined on null/undefined and for a key absent from the whole chain; an own property's value, else an inherited one's |
| JsValues.FlattenSnoc | packages/collections/src/flatMap.js:29-31 | one more piece appends that piece's items |
| JsValues.FlattenAppend | packages/collections/src/flatMap.js:29-31 | flattening distributes over concatenation |
| JsValues.FlattenSingles | packages/collections/src/arrays.js:27 | pieces that are all single values flatten to those values, one per piece |
| JsValues.FlattenUniformLength | packages/collections/src/flatMap.js:29-31 | pieces of n items each flatten to n items per piece |
| JsValues.FlattenUniformAt | packages/collections/src/flatMap.js:29-31 | with n items per piece, piece i's item j is at i * n + j |
| Arrays.FlattenChecked | packages/collections/src/arrays.js:20-27 | succeeds exactly when no mapped value is null or undefined, whose `Symbol.iterator` read throws; the result is the concatenation of the pieces |
| Arrays.FlattenCheckedSnoc | packages/collections/src/arrays.js:19-28 | one more defined value appends its items |
| Arrays.FlattenCheckedAppend | packages/collections/src/arrays.js:19-28 | checked flattening of a concatenation joins the parts' results, and throws if either part throws |
| Arrays.FlatMapArray | packages/collections/src/arrays.js:14-30 | the loop's result is FlattenChecked of mappingFn(arr[i], i) |
| Arrays.FlatMap | packages/collections/src/arrays.js:46-64 | both the Array path and the iterator path give FlattenChecked of the mapped items |
| Arrays.FlatMapOfSingles | packages/collections/src/arrays.js:14-30 | when no mapped value is iterable, flat-mapping is mapping |
| Arrays.FlatMapAppend | packages/collections/src/arrays.js:14-30 | flat-mapping a concatenation is the concatenation of the parts' flat-maps, indices of the second part shifted; it fails if either part fails |
| Arrays.Reduced | packages/collections/src/arrays.js:77-88 | undefined exactly for an empty collection without an accumulator; an empty collection returns the accumulator; a one-item collection without one returns that item |
| Arrays.FoldLeftAppend | packages/collections/src/arrays.js:83-84 | folding s + t folds t from s's result |
| Arrays.ReducedSeeded | packages/collections/src/arrays.js:80-81 | without an accumulator, the first element seeds the fold of the rest |
| Arrays.ReducedAppend | packages/collections/src/arrays.js:77-88 | reducing in two parts chains the accumulators |
| Arrays.FoldLeftSnoc | packages/collections/src/arrays.js:83-84 | one more loop iteration applies the reducer once more |
| Arrays.ReduceArray | packages/collections/src/arrays.js:77-88 | the loop's result is Reduced: a fold over all items from the accumulator, or over the rest from arr[0], and undefined for an empty array without an accumulator |
| Arrays.Reduce | packages/collections/src/arrays.js:102-116 | both paths give Reduced of the items |
| Arrays.FindArray | packages/collections/src/arrays.js:127-136 | undefined exactly when no item passes; otherwise the first item, in index order, that passes; the predicate is called once per item up to and including the first match, and never after it |
| Arrays.Find | packages/collections/src/arrays.js:148-157 | the same result and the same count of predicate calls, for the Array path and the iterator path |
| Arrays.MapArray | packages/collections/src/arrays.js:168-176 | same length, mapped[i] == mappingFn(arr[i], i) |
| Arrays.Map | packages/collections/src/arrays.js:184-196 | the same, for both paths |
| FlatMaps.TypeOf | packages/collections/src/flatMap.js:20 | `typeof` of a collection: "object" for a value with entries and for null, "undefined" for undefined |
| FlatMaps.ConcatEntries | packages/collections/src/flatMap.js:27-32 | the concat loop's result is Flatten of mappingFn(value, key) over the entries in order |
| FlatMaps.FlatMap | packages/collections/src/flatMap.js:18-33 | a non-function mappingFn throws "<typeof collection> is not a Function"; reading `entries` of null/undefined throws; no `entries` function throws "... is not an Array, Map, or Set"; success exactly for a function and a collection with entries |
| FlatMaps.FlatMapObj | packages/collections/src/flatMap.js:48-63 | a non-function mappingFn throws "... is not a Function", a non-object "... is not an Object"; otherwise the flattened entries of the object |
| FlatMaps.EmptyEntries | packages/collections/src/flatMap.js:27-32 | no entries give the empty array |
| FlatMaps.ArrayKeysAreIndices | packages/collections/src/flatMap.js:29-31 | for an Array, mappingFn sees each element with its index |
| FlatMaps.SetKeysAreValues | packages/collections/src/flatMap.js:29-31 | for a Set, mappingFn sees each element as both value and key |
| FlatMaps.UniformSpread | packages/collections/tests/flatMap.test.js:1-77 | when every mapped result has n items, the output has n per entry and entry i's item j is at i * n + j |
| PropReaders.Prop | packages/collections/src/prop.js:19-22 | no keys throws "Expected at least one argument"; otherwise the reader captures the keys |
| PropReaders.FromObj | packages/collections/src/prop.js:28-38 | one key gives `obj?.[key]`; otherwise one value per key, in key order, each `obj?.[key]` |
| PropReaders.DefinedReadIsPresent | packages/collections/src/prop.js:64-65 | a key that does not read as undefined is `in` the object |
| PropReaders.PickedIn | packages/collections/src/prop.js:60-68 | the picked object holds only listed keys that are `in` obj, holds every such key, and reads an inherited value when the key is not own |
| PropReaders.Pick | packages/collections/src/prop.js:54-71 | `in` on null/undefined throws once there is a key; otherwise exactly the listed keys that are own or inherited, each with the value read |
| PropReaders.PickNoKeys | packages/collections/src/prop.js:60-68 | with no keys the picked object is empty |
| Objects.MakeGetter | packages/collections/src/objects.js:13 | an omitted default is undefined |
| Objects.Apply | packages/collections/src/objects.js:14-16 | the getter returns the value read or the default; a non-nullish default gives a non-nullish result; a defined own value is returned as is |
| Objects.ApplyIsDefaultedRead | packages/collections/src/objects.js:13-17 | the getter returns the value read unless it is null or undefined, and then the default; on null/undefined obj it returns the default |
| Objects.ApplyNeverNullish | packages/collections/src/objects.js:15 | with a default that is not null or undefined, the getter never returns null or undefined |
| Objects.NoDefaultRead | packages/collections/src/objects.js:13-17 | without a default, the getter differs from prop.js's read only by turning null into undefined |
| Objects.Props | packages/collections/src/objects.js:36-39 | no keys throws "Expected at least one argument" |
| Objects.PropsApply | packages/collections/src/objects.js:40-43 | undefined exactly for null/undefined obj; otherwise one getter per key, in key order |
| Objects.PropsYieldsGetters | packages/collections/src/objects.js:42 | `props('a')({a: 1})` holds a getter that reads 2 from `{a: 2}`, not the value 1 |
| Objects.PropsValues | packages/collections/src/objects.js:20-35 | the documented result: undefined exactly for null/undefined obj, otherwise one value per key |
| Objects.PropsGettersReadBack | packages/collections/src/objects.js:40-43 | each as-written getter, applied to the same obj, gives the documented value |
| Objects.PickedOwn | packages/collections/src/objects.js:61-67 | the picked object holds only listed own properties with their own values, and every listed own property |
| Objects.Pick | packages/collections/src/objects.js:59-69 | `hasOwnProperty.call` on null/undefined throws once there is a key; otherwise exactly the listed own properties, each with its own value |
| Objects.OwnPickWithinInPick | packages/collections/src/objects.js:59-69 | the own-property pick is a sub-map of prop.js's `in`-based pick, and equal to it when nothing is inherited |
| Objects.Pluck | packages/collections/src/objects.js:83-92 | null/undefined collection throws; otherwise success exactly when no element is null or undefined, with plucked[i] == collection[i][key] and the same length |

## Left out

- Floating point: `length` uses float division and `Math.ceil`. The model uses exact integer ceiling division, so precision loss beyond 2^53 is not modelled.
- Non-integer `slice` bounds and steps are not modelled. JavaScript would compute fractional positions from them. The model takes integers, `null`/`undefined` (None), or a null step.
- Error messages thrown by the engine are not modelled with their wording, only their cause: reading a property of null/undefined, `in` on a non-object, and `hasOwnProperty.call` on null/undefined.
- Primitive receivers are not modelled; the model's objects are maps or null/undefined. A string or number is boxed by `obj?.[key]` in both `prop`s, by `collection[i][key]` in `pluck` and by `hasOwnProperty.call` in objects.js's `pick`. prop.js's `pick` instead throws a TypeError, since `key in obj` refuses a primitive.
- Arrays.FlatMap, Arrays.Reduce, Arrays.Find, Arrays.Map: the collection is always an Array or an iterable, and the callback always a function. A non-iterable collection throws a TypeError at `for...of` or `collection[Symbol.iterator]()`, and a non-function callback throws when called; neither error is modelled.
- Ranges.Index, Ranges.GetItem: the index is an integer. `index(1.5)` returns `start + 1.5 * step` and `index(null)` returns `start` on a non-empty range, because neither `_withinBounds` nor `_getitem` checks for an integer; these are not modelled.
- Objects.Pluck: the collection is an array (or null/undefined). A non-array object gives `[undefined]`, because `collection.length` is undefined and `Array(undefined)` is `[undefined]` while the loop never runs; this is not modelled.
- Property enumeration order (`Object.entries`, `Map.prototype.entries`) is taken as given by the entries sequence.
- Arrays.Reduce: the iterator path runs `for (const item of iter)` over the iterator that `collection[Symbol.iterator]()` returned, so it needs that iterator to be iterable itself, as built-in iterators and generators are; the model assumes it is. An iterable whose iterator is a plain `{ next }` object makes the code throw a TypeError there, which the model does not capture.
- Arrays.Reduce: for a non-Array iterable that yields nothing and no accumulator, the code seeds from `iter.next().value` without checking `done`. Both this and the Array path return undefined, and the model does not distinguish the two.
- Collection elements that are themselves `undefined` are not modelled as values of `T` in `reduce` and `find`. `find` would return such an element indistinguishably from "not found".
- Symbols as keys are not modelled separately; keys are a type parameter.
- packages/collections/src/strings.js, types.js, numbers.js and functions.js are not part of this model: they use reflection, `WeakSet` cycle tracking, an external formatter, floating-point formatting and property-descriptor copying. The `isTypeOf` guard from types.js appears only as the Callable and Collection constructors.
- packages/collections/index.cjs is not part of this model. It is a CommonJS copy of flatMap.js and types.js plus an older single-key `prop`.
- Timing utilities and performance tests (wall clock, console output) and the example scripts are not modelled.
- Direction mismatch is kept, not rejected: `next()` compares only `index` with `length`, so a Range whose step points away from stop still yields `length` values moving away from stop (Ranges.DirectionMismatchYields, Ranges.ElemsMoveAwayFromStop).

## Findings

| source | as written | input that shows it | evidently intended | confidence | as-written member | corrected member |
|---|---|---|---|---|---|---|
| packages/collections/src/objects.js:42 | `props(...keys)(obj)` returns `keys.map(key => prop(key, obj[key]))`, an array of getter functions | `props('a')({a: 1})` is an array holding a function, not `[1]` | the values `obj[key]`, as the doc comment at objects.js:21-22 says ("gets the value of an object's key. If multiple keys are supplied, an array of values is returned"); its return type `any` or `any[]` suggests a bare value for one key, while Objects.PropsValues always returns an array, one value per key | not executed | Objects.PropsYieldsGetters | Objects.PropsValues (with Objects.PropsGettersReadBack) |
