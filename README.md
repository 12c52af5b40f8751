# CollectionValueObject, modelled in Dafny

`CollectionValueObject<T extends IEquality>` is an abstract TypeScript base class for
collections of value objects. It owns a private array `_items` and re-exposes the
`Array` method set over it. Searching uses the elements' own `compare` method rather
than object identity. Its methods fall into three groups:

- **In-place mutators** change the owned array: `push`, `pop`, `shift`, `unshift`,
  `splice`, `reverse`, and `remove`, which replaces the array with a filtered copy.
- **Transforms** deep-copy the contents, transform the copy with the native method
  and wrap it in a new instance, leaving the receiver untouched: `sort`, `fill`,
  `copyWithin`.
- **Queries** delegate to the native method on the owned array: `indexOf`,
  `lastIndexOf`, `find`, `findIndex`, `filter`, `some`, `every`, `map`, `reduce`,
  `reduceRight`, `at`, `slice`, `concat`, and the `items`/`length` getters.

The project has five modules.

- `Wrappers` (`wrappers.dfy`) holds `Option` (JavaScript's `undefined` is `None`) and
  `Result`, whose failure stands for a thrown TypeError.
- `NativeArray` (`native_array.dfy`) models the built-in `Array.prototype` methods the
  class delegates to, as ECMA-262 (2024 edition, section 23.1.3) defines them for a dense
  array.
  - The shared relative-index clamping is `ClampIndex`.
  - The read-only methods are functions on `seq`.
  - `fill` and `copyWithin`, which the standard defines as loops that write the array,
    are methods on `array`, each proved against a value-level function (`Filled`,
    `CopiedWithin`).
  - `copyWithin` copies downwards when the source run lies below an overlapping target
    run, as the standard's `direction` step does.
- `Sorting` (`sorting.dfy`) models `sort` with a supplied comparator as a stable
  insertion sort. The output is proved to be a permutation of the input for every
  comparator. For every comparator that is consistent on the array's elements, as
  section 23.1.3.30 requires, it is also proved sorted and stable.
- `Collections` (`collections.dfy`) holds the class. `items` is a `seq<T>` field that
  the mutators reassign, and `compare` is a `const` function, called as
  `compare(stored, searched)` as `x.compare(searchElement)` does. `Fill` and
  `CopyWithin` copy `items` into a fresh `array`, run the in-place loop and build a
  fresh collection. `Sort` builds the fresh collection from `Sorting.SortBy` of
  `items`: the native in-place sort of the copy (line 43) is modelled as a pure
  function.
- `Scenario` (`scenario.dfy`) contains the repository's test scenario. Its element type
  compares on `title`. It also holds the push/pop round trip.

Callbacks are pure functions that receive the element, its index and the whole array.
Optional numeric arguments are `Option<int>`.

The model follows the code as written, including four quirks:

- `remove(p)` keeps the elements for which `p` holds, because it is `filter(p)`.
- `lastIndexOf` is the same forward scan as `indexOf`, so it returns the first match.
- `splice` with a deleteCount of 0 or with the argument omitted takes the
  `splice(start)` branch: it truncates from `start` and ignores the inserted elements.
- `reduce`/`reduceRight` choose the seeded branch by the truthiness of
  `initialValue`. For object-typed elements this means presence, so the seed is an
  `Option<T>`.

## Model

| member | source | states |
|---|---|---|
| Collections.CollectionValueObject.constructor | src/collections-value-object.ts:21-23 | the collection holds exactly the given elements (the deep copy is the identity on values) |
| Collections.CollectionValueObject.Length | src/collections-value-object.ts:17-19 | `length` is the number of elements |
| Collections.CollectionValueObject.Remove | src/collections-value-object.ts:25-27 | the new contents are the in-order subsequence of the old ones at the positions where the predicate holds, a position is kept iff the predicate holds there, and the length never grows |
| Collections.CollectionValueObject.Pop | src/collections-value-object.ts:29-31 | on a non-empty collection returns the last element and drops it; on an empty one returns absent and changes nothing |
| Collections.CollectionValueObject.Push | src/collections-value-object.ts:32-34 | appends the arguments and returns the old length plus their number |
| Collections.CollectionValueObject.Reverse | src/collections-value-object.ts:35-37 | the contents become their reverse (element `i` comes from position `n-1-i`), and the reversed contents are returned |
| Collections.CollectionValueObject.Shift | src/collections-value-object.ts:38-40 | on a non-empty collection returns the first element and drops it; on an empty one returns absent and changes nothing |
| Collections.CollectionValueObject.Splice | src/collections-value-object.ts:46-52 | with a truthy deleteCount `d`, the clamped run `old[s..s+d']` is returned and `items == old[..s] + rest + old[s+d'..]`; otherwise `old[s..]` is returned, `items == old[..s]`, and `rest` is ignored |
| Collections.CollectionValueObject.Unshift | src/collections-value-object.ts:53-55 | prepends the arguments and returns the old length plus their number |
| Collections.CollectionValueObject.CopyItems | src/collections-value-object.ts:42 | the spread copy is a fresh array holding the elements in order |
| Collections.CollectionValueObject.Sort | src/collections-value-object.ts:41-45 | returns a fresh collection and leaves this one unchanged; the new contents are always a permutation, and with a comparator consistent on the elements they are ordered by it and stable (for every element, the elements equivalent to it keep their relative order) |
| Collections.CollectionValueObject.Fill | src/collections-value-object.ts:118-122 | returns a fresh collection and leaves this one unchanged; the new contents have the same length, hold `value` at the clamped positions `[start, end)` and the old element elsewhere |
| Collections.CollectionValueObject.CopyWithin | src/collections-value-object.ts:123-127 | returns a fresh collection and leaves this one unchanged; the clamped run at `start` is copied over the run at `target`, every element read before it is overwritten |
| Collections.CollectionValueObject.IndexOf | src/collections-value-object.ts:185-187 | the least position whose element `compare`s to `x`, or -1 exactly when there is none; always in `[-1, length)` |
| Collections.CollectionValueObject.LastIndexOf | src/collections-value-object.ts:188-190 | the same value as `indexOf`: the least matching position, or -1 when there is none |
| Collections.CollectionValueObject.LastIndexOfMissesLaterMatch | src/collections-value-object.ts:188-190 | of two matching positions `i < j`, `lastIndexOf` reports one at or before `i`, never `j` |
| Collections.CollectionValueObject.IndexOfRespectsCompare | src/collections-value-object.ts:185-187 | when `compare` is an equivalence and `compare(a, b)`, `indexOf(a) == indexOf(b)` |
| Collections.CollectionValueObject.IndexOfFindsStored | src/collections-value-object.ts:185-187 | with a reflexive `compare`, a stored element is found at or before its own position |
| Collections.CollectionValueObject.FindIndex | src/collections-value-object.ts:115-117 | the least index satisfying the predicate, or -1 exactly when none does |
| Collections.CollectionValueObject.Find | src/collections-value-object.ts:198-200 | absent exactly when no element satisfies the predicate; otherwise the element at the least satisfying index |
| Collections.CollectionValueObject.Filter | src/collections-value-object.ts:192-197 | the in-order subsequence at increasing positions, where a position is kept iff the predicate holds there |
| Collections.CollectionValueObject.Some | src/collections-value-object.ts:60-62 | true iff some element satisfies the predicate |
| Collections.CollectionValueObject.Every | src/collections-value-object.ts:57-59 | true iff every element satisfies the predicate |
| Collections.CollectionValueObject.Map | src/collections-value-object.ts:66-68 | same length, with element `i` equal to the callback applied to element `i`, index `i` and the array |
| Collections.CollectionValueObject.Reduce | src/collections-value-object.ts:69-91 | with a seed, the left fold of all elements from the seed; without one, the left fold of the rest from the first element; throws exactly when there is no seed and the collection is empty |
| Collections.CollectionValueObject.ReduceRight | src/collections-value-object.ts:92-114 | the mirror image of `reduce`: `reduce` over the reversed elements with the callback seeing the original indices; throws exactly when there is no seed and the collection is empty |
| Collections.CollectionValueObject.At | src/collections-value-object.ts:227-229 | present iff `-length <= index < length`; a non-negative index counts from the front, a negative one from the back |
| Collections.CollectionValueObject.Slice | src/collections-value-object.ts:182-184 | the run between the clamped start and end, empty when the end does not lie after the start |
| Collections.CollectionValueObject.Concat | src/collections-value-object.ts:176-178 | the elements come first and are unchanged; concatenating no arrays gives the elements, and concatenating one array appends it |
| NativeArray.ClampIndex | src/collections-value-object.ts:182-184 | a relative index becomes a position in `[0, len]`: in-range indices are kept, negative ones count back from `len`, and anything beyond is clamped |
| NativeArray.At | src/collections-value-object.ts:227-229 | `at` is present iff the index is in `[-len, len)`, and counts from the back for negative indices |
| NativeArray.Slice | src/collections-value-object.ts:182-184 | `slice` is the run between the clamped start (default 0) and the clamped end (default `len`) |
| NativeArray.SliceSplits | src/collections-value-object.ts:182-184 | slicing before and after the same index gives back the whole array |
| NativeArray.DeleteCount | src/collections-value-object.ts:46-52 | the actual delete count: everything from `start` when omitted, otherwise the argument clamped to `[0, len - start]` |
| NativeArray.Splice | src/collections-value-object.ts:46-52 | returns the removed run `a[s..s+d]`, and the new contents are `a[..s] + items + a[s+d..]` |
| NativeArray.SpliceUndo | src/collections-value-object.ts:46-52 | splicing the removed elements back in over the inserted ones restores the original array and returns the inserted ones |
| NativeArray.FindIndex | src/collections-value-object.ts:115-117 | the least satisfying index, or -1 exactly when none satisfies |
| NativeArray.Find | src/collections-value-object.ts:198-200 | `find` yields the element at the index `findIndex` reports, and absent when that is -1 |
| NativeArray.Any | src/collections-value-object.ts:60-62 | `some` holds iff some position satisfies the predicate |
| NativeArray.All | src/collections-value-object.ts:57-59 | `every` holds iff every position satisfies the predicate |
| NativeArray.SearchesAgree | src/collections-value-object.ts:57-62 | `some` holds iff `findIndex` finds a match, and `every` is the negation of `some` of the negated predicate |
| NativeArray.Filter | src/collections-value-object.ts:192-197 | `filter` never yields more elements than its input |
| NativeArray.FilterSelects | src/collections-value-object.ts:25-27 | the result of `filter` is the input at strictly increasing positions, and a position is among them iff the predicate holds there |
| NativeArray.FilterByValue | src/collections-value-object.test.ts:38-40 | for a predicate on the element alone (such as `x => x.compare(test2)`), every kept element satisfies it and no element failing it remains |
| NativeArray.Map | src/collections-value-object.ts:66-68 | `map` has the same length, with the callback applied at every position |
| NativeArray.Reduce | src/collections-value-object.ts:86-90 | `reduce` fails exactly when there is no seed and the array is empty |
| NativeArray.ReduceIsLeftFold | src/collections-value-object.ts:86-90 | `reduce` with a seed is the left fold from the seed; without one it is the left fold of the rest from the first element |
| NativeArray.ReduceWithoutSeedIsReduceFromIdentity | src/collections-value-object.ts:86-90 | on a non-empty array, omitting the seed equals seeding with a left identity of the reducer |
| NativeArray.ReduceRight | src/collections-value-object.ts:109-113 | `reduceRight` fails exactly when there is no seed and the array is empty |
| NativeArray.ReduceRightIsMirroredReduce | src/collections-value-object.ts:109-113 | `reduceRight` equals `reduce` over the reversed array with the callback seeing the original indices, with or without a seed |
| NativeArray.Reversed | src/collections-value-object.ts:35-37 | the reverse has the same length, and its element `i` is element `n-1-i` of the input |
| NativeArray.ReversedTwice | src/collections-value-object.ts:35-37 | reversing twice gives back the array |
| NativeArray.Concat | src/collections-value-object.ts:176-178 | `concat` starts with the receiver's elements unchanged |
| NativeArray.ConcatInSteps | src/collections-value-object.ts:176-178 | concatenating several arrays at once equals concatenating them in successive calls |
| NativeArray.ConcatOne | src/collections-value-object.ts:176-178 | `concat` with one array appends it |
| NativeArray.Filled | src/collections-value-object.ts:118-122 | `fill` keeps the length and holds `value` exactly at the clamped positions `[start, end)` |
| NativeArray.FilledIdempotent | src/collections-value-object.ts:118-122 | filling twice with the same arguments is filling once |
| NativeArray.FillInPlace | src/collections-value-object.ts:120 | the in-place loop leaves the array equal to `Filled` of its old contents |
| NativeArray.CopyCount | src/collections-value-object.ts:123-127 | the copied count fits at both the source and the target and stays within the clamped end; it is positive exactly when the source run is non-empty and the target lies inside the array, and then it reaches the end of one of the two, so it is min(final − from, len − to) |
| NativeArray.CopiedWithin | src/collections-value-object.ts:123-127 | `copyWithin` gives the old array with the counted run from `start` copied onto the positions from `target`, all values read from the old array |
| NativeArray.CopiedWithinOntoItself | src/collections-value-object.ts:123-127 | copying a run onto itself changes nothing |
| NativeArray.CopyWithinInPlace | src/collections-value-object.ts:125 | the in-place loop (downwards for an overlapping target above the source, upwards otherwise) leaves the array equal to `CopiedWithin` of its old contents |
| Sorting.Insert | src/collections-value-object.ts:43 | inserting adds exactly one occurrence of the element (length and multiset) |
| Sorting.SortBy | src/collections-value-object.ts:43 | the sort returns a permutation of its input, for every comparator |
| Sorting.SortByIsSorted | src/collections-value-object.ts:43 | with a comparator consistent on the array's elements, the result is ordered by it |
| Sorting.SortByIsStable | src/collections-value-object.ts:43 | with a comparator consistent on the array's elements, for every element `key` the elements comparing as 0 with it keep their relative order |
| Scenario.PushThenPop | src/collections-value-object.ts:29-34 | pushing `x` and then popping returns `x` and restores exactly the previous contents |
| Scenario.TestScenario | src/collections-value-object.test.ts:27-43 | after pushing `test1` and `test2`, `some(x => x.compare(test1))` holds; `remove(x => x.compare(test2))` leaves exactly `[test2]`; a further push gives length 2 |

## Left out

- `includes` (src/collections-value-object.ts:210-212) is left out. It compares by reference identity (SameValueZero), not by `compare`, and the test's `includes(test2) == false` depends on the deep copy creating fresh object identities. Values in this model have no identity, so that outcome cannot be reproduced. The scenario checks the contents directly instead.
- `_.cloneDeep` (lines 22, 26, 42, 119, 124) is a foreign call. On values a deep copy is the identity, so it is not modelled, and neither are the fresh object identities it creates.
- The `items` getter freezes a copy of the array. A `seq` value is already immutable, so reading the `items` field is the getter.
- `forEach` (lines 63-65) is left out. It runs `flatMap` and discards the result, and with pure callbacks that has no observable effect.
- `toString`, `toLocaleString` and `join` (lines 170-181) are left out, because they depend on JSON serialisation and string conversion of the elements.
- The iterators `entries`, `keys`, `values` and `[Symbol.iterator]` (lines 128-130, 201-209) are left out, because they are lazy views over the live array.
- `flat` and `flatMap` (lines 213-226) are left out, because their behaviour depends on union-typed results, which the model does not represent.
- `Symbol.unscopables` and the numeric index signature (lines 131-169) are declarations that are never populated.
- `every`'s type-guard return type is not modelled; `Every` returns the plain boolean.
- The default `sort` comparator (`compareFn` undefined) is left out, because it orders by string conversion. `Sort` always takes a comparator.
- Sorting.SortBy: a comparator that returns NaN, or one that is not consistent on the array's elements, leaves the order implementation-defined in the standard. The model fixes one order for every comparator but proves sortedness and stability only for comparators consistent on the elements.
- Callbacks are pure functions of element, index and array. A callback that mutates the live array it receives (lines 58, 61, 67, 116, 186, 193, 199) is not modelled.
- NativeArray.Concat: every argument is an array (`seq<T>`). Section 23.1.3.2 spreads only arguments that are concat-spreadable; any other `ConcatArray<T>` argument, such as another `CollectionValueObject`, is appended as a single element. That case is not modelled, and neither is `Symbol.isConcatSpreadable`.
- `thisArg` bindings are not modelled, because they have no observable effect with pure callbacks.
- Collections.CollectionValueObject.Reverse: returns the reversed contents as a value, not the alias of the internal array that the source returns (line 36), so a later write through that alias is not modelled.
- Index arguments are mathematical integers. JavaScript's number coercion (NaN, fractions, ±Infinity, `-0`) and the 2^53-1 length limit and its TypeError are not modelled.
- Arrays are dense; holes and the `HasProperty` checks the standard performs for them are not modelled.
- Collections.CollectionValueObject.Splice: a truthy deleteCount is modelled as a present, non-zero integer. NaN, which is falsy, is not representable.
- Collections.CollectionValueObject.Reduce: the seed is an `Option<T>`. Truthiness equals presence only for object-typed elements, so a falsy primitive seed is not modelled.
- The class is abstract in the source and its subclasses add only constructors; `new this.constructor(...)` in the transforms is modelled as constructing a new `CollectionValueObject` with the same `compare`.
