/**
 * `CollectionValueObject<T extends IEquality>`: a container that owns an array of
 * elements and re-exposes the `Array` methods over it, searching by the
 * elements' own `compare` method instead of by identity.
 *
 * The owned array is the field `items`, a sequence value: what the `items`
 * getter hands out is that value, so no caller can change the container through
 * it, and the deep copies taken at construction, in `remove` and in the
 * transforms are the identity on values. Methods fall into three groups, as in
 * the source:
 *   - in-place mutators (`Push`, `Pop`, `Shift`, `Unshift`, `Splice`, `Reverse`,
 *     `Remove`) change `items` and say exactly what it becomes;
 *   - transforms (`Sort`, `Fill`, `CopyWithin`) leave `items` alone and return a
 *     fresh collection holding the transformed copy;
 *   - queries are functions of `items`.
 */
module Collections {
  import opened Wrappers
  import NativeArray
  import Sorting

  /** The properties a domain `compare` should have for searches to behave. */
  ghost predicate IsEquivalence<T(!new)>(compare: (T, T) -> bool)
  {
    && (forall x :: compare(x, x))
    && (forall x, y :: compare(x, y) ==> compare(y, x))
    && (forall x, y, z :: compare(x, y) && compare(y, z) ==> compare(x, z))
  }

  class CollectionValueObject<T(!new)> {
    /** `IEquality.compare`: `compare(x, other)` is `x.compare(other)`. */
    const compare: (T, T) -> bool

    /** The owned elements, in order. */
    var items: seq<T>

    /** A collection holding `items`, compared with `compare`. */
    constructor (items: seq<T>, compare: (T, T) -> bool)
      ensures this.items == items && this.compare == compare
    {
      this.items := items;
      this.compare := compare;
    }

    /** The `length` getter: the number of elements. */
    function Length(): (n: nat)
      reads this
      ensures n == |items|
    {
      |items|
    }

    // -------------------------------------------------------------------------
    // In-place mutators
    // -------------------------------------------------------------------------

    /**
     * `remove(predicate)`: replaces the elements by `filter(predicate)`, so it KEEPS
     * the elements for which the predicate holds, in order, and drops the others.
     */
    method Remove(p: NativeArray.Callback<T, bool>)
      modifies this
      ensures items == NativeArray.Filter(old(items), p)
      ensures |items| <= |old(items)|
      ensures NativeArray.IsOrderedSelection(items, old(items), NativeArray.KeptIndices(old(items), p))
      ensures forall i :: 0 <= i < |old(items)| ==>
                (i in NativeArray.KeptIndices(old(items), p) <==> p(old(items)[i], i, old(items)))
    {
      NativeArray.FilterSelects(items, p);
      items := NativeArray.Filter(items, p);
    }

    /** `pop()`: removes and returns the last element; absent and no change when empty. */
    method Pop() returns (r: Option<T>)
      modifies this
      ensures old(items) == [] ==> r == None && items == old(items)
      ensures old(items) != [] ==>
                r == Option.Some(old(items)[|old(items)| - 1]) && items == old(items)[..|old(items)| - 1]
    {
      if items == [] {
        r := None;
      } else {
        r := Option.Some(items[|items| - 1]);
        items := items[..|items| - 1];
      }
    }

    /** `push(...xs)`: appends `xs` and returns the new length. */
    method Push(xs: seq<T>) returns (n: nat)
      modifies this
      ensures items == old(items) + xs
      ensures n == |old(items)| + |xs|
    {
      items := items + xs;
      n := |items|;
    }

    /** `reverse()`: reverses the elements in place and returns them. */
    method Reverse() returns (r: seq<T>)
      modifies this
      ensures items == NativeArray.Reversed(old(items))
      ensures r == items
    {
      items := NativeArray.Reversed(items);
      r := items;
    }

    /** `shift()`: removes and returns the first element; absent and no change when empty. */
    method Shift() returns (r: Option<T>)
      modifies this
      ensures old(items) == [] ==> r == None && items == old(items)
      ensures old(items) != [] ==> r == Option.Some(old(items)[0]) && items == old(items)[1..]
    {
      if items == [] {
        r := None;
      } else {
        r := Option.Some(items[0]);
        items := items[1..];
      }
    }

    /**
     * `splice(start, deleteCount?, ...rest)`. A truthy (present and non-zero)
     * `deleteCount` takes the three-argument path: the clamped run at `start` is
     * removed and `rest` put in its place. Otherwise the call is `splice(start)`:
     * everything from `start` is removed and `rest` is ignored.
     */
    method Splice(start: int, deleteCount: Option<int>, rest: seq<T>) returns (removed: seq<T>)
      modifies this
      ensures var s := NativeArray.ClampIndex(start, |old(items)|);
              if deleteCount.Some? && deleteCount.value != 0 then
                var d := NativeArray.DeleteCount(|old(items)|, s, deleteCount);
                && removed == old(items)[s..s + d]
                && items == old(items)[..s] + rest + old(items)[s + d..]
              else
                removed == old(items)[s..] && items == old(items)[..s]
    {
      var r;
      if deleteCount.Some? && deleteCount.value != 0 {
        r := NativeArray.Splice(items, start, deleteCount, rest);
      } else {
        r := NativeArray.Splice(items, start, None, []);
      }
      removed, items := r.0, r.1;
    }

    /** `unshift(...xs)`: prepends `xs` and returns the new length. */
    method Unshift(xs: seq<T>) returns (n: nat)
      modifies this
      ensures items == xs + old(items)
      ensures n == |old(items)| + |xs|
    {
      items := xs + items;
      n := |items|;
    }

    // -------------------------------------------------------------------------
    // Transforms: a fresh collection, this one unchanged
    // -------------------------------------------------------------------------

    /** A fresh array holding a copy of the elements (the spread-and-clone of the transforms). */
    method CopyItems() returns (a: array<T>)
      ensures fresh(a) && a[..] == items
    {
      var snapshot := items;
      a := new T[|snapshot|](i requires 0 <= i < |snapshot| => snapshot[i]);
      assert a[..] == snapshot;
    }

    /**
     * `sort(compareFn)`: a fresh collection holding the elements sorted by
     * `compareFn`. It is always a permutation of the elements; when `compareFn`
     * is consistent on the elements it is ordered by it, and stable.
     */
    method Sort(compareFn: Sorting.Comparator<T>) returns (c: CollectionValueObject<T>)
      ensures fresh(c) && c.compare == compare && items == old(items)
      ensures c.items == Sorting.SortBy(items, compareFn)
      ensures multiset(c.items) == multiset(items)
      ensures Sorting.ConsistentOn(items, compareFn) ==> Sorting.SortedBy(c.items, compareFn)
      ensures Sorting.ConsistentOn(items, compareFn) ==>
                forall key | key in items ::
                  Sorting.Equivalents(c.items, key, compareFn) == Sorting.Equivalents(items, key, compareFn)
    {
      c := new CollectionValueObject(Sorting.SortBy(items, compareFn), compare);
      if Sorting.ConsistentOn(items, compareFn) {
        Sorting.SortByIsSorted(items, compareFn);
        forall key | key in items {
          Sorting.SortByIsStable(items, key, compareFn);
        }
      }
    }

    /**
     * `fill(value, start?, end?)`: a fresh collection equal to this one except
     * that `value` sits at the clamped positions `[start, end)`.
     */
    method Fill(value: T, start: Option<int>, end: Option<int>) returns (c: CollectionValueObject<T>)
      ensures fresh(c) && c.compare == compare && items == old(items)
      ensures c.items == NativeArray.Filled(items, value, start, end)
    {
      var newItems := CopyItems();
      NativeArray.FillInPlace(newItems, value, start, end);
      c := new CollectionValueObject(newItems[..], compare);
    }

    /**
     * `copyWithin(target, start, end?)`: a fresh collection equal to this one
     * except that the clamped run at `start` is copied over the run at `target`.
     */
    method CopyWithin(target: int, start: int, end: Option<int>) returns (c: CollectionValueObject<T>)
      ensures fresh(c) && c.compare == compare && items == old(items)
      ensures c.items == NativeArray.CopiedWithin(items, target, start, end)
    {
      var newItems := CopyItems();
      NativeArray.CopyWithinInPlace(newItems, target, start, end);
      c := new CollectionValueObject(newItems[..], compare);
    }

    // -------------------------------------------------------------------------
    // Queries
    // -------------------------------------------------------------------------

    /** `indexOf(x)`: the first position whose element `compare`s to `x`, or -1. */
    function IndexOf(x: T): (r: int)
      reads this
      ensures -1 <= r < |items|
      ensures 0 <= r ==> compare(items[r], x) && forall j :: 0 <= j < r ==> !compare(items[j], x)
      ensures r == -1 <==> forall j :: 0 <= j < |items| ==> !compare(items[j], x)
    {
      var cmp := compare;
      NativeArray.FindIndex(items, (y, i, s) => cmp(y, x))
    }

    /** `lastIndexOf(x)`: the same forward scan as `indexOf`, so the FIRST match. */
    function LastIndexOf(x: T): (r: int)
      reads this
      ensures r == IndexOf(x)
      ensures 0 <= r ==> compare(items[r], x) && forall j :: 0 <= j < r ==> !compare(items[j], x)
      ensures r == -1 <==> forall j :: 0 <= j < |items| ==> !compare(items[j], x)
    {
      var cmp := compare;
      NativeArray.FindIndex(items, (y, i, s) => cmp(y, x))
    }

    /** Of two matching positions, `lastIndexOf` never reports the later one. */
    lemma LastIndexOfMissesLaterMatch(x: T, i: nat, j: nat)
      requires i < j < |items|
      requires compare(items[i], x) && compare(items[j], x)
      ensures 0 <= LastIndexOf(x) <= i < j
    {
    }

    /** With an equivalence `compare`, equal values are found at the same position. */
    lemma IndexOfRespectsCompare(a: T, b: T)
      requires IsEquivalence(compare)
      requires compare(a, b)
      ensures IndexOf(a) == IndexOf(b)
    {
      var ia, ib := IndexOf(a), IndexOf(b);
      if ia >= 0 {
        assert compare(items[ia], b);
      }
      if ib >= 0 {
        assert compare(b, a);
        assert compare(items[ib], a);
      }
    }

    /** With a reflexive `compare`, a stored element is found at or before its position. */
    lemma IndexOfFindsStored(i: nat)
      requires forall x :: compare(x, x)
      requires i < |items|
      ensures 0 <= IndexOf(items[i]) <= i
    {
      assert compare(items[i], items[i]);
    }

    /** `findIndex(p)`: the least index satisfying `p`, or -1. */
    function FindIndex(p: NativeArray.Callback<T, bool>): (r: int)
      reads this
      ensures -1 <= r < |items|
      ensures 0 <= r ==> p(items[r], r, items) && forall j :: 0 <= j < r ==> !p(items[j], j, items)
      ensures r == -1 <==> forall j :: 0 <= j < |items| ==> !p(items[j], j, items)
    {
      NativeArray.FindIndex(items, p)
    }

    /** `find(p)`: the element at `findIndex(p)`, absent when there is none. */
    function Find(p: NativeArray.Callback<T, bool>): (r: Option<T>)
      reads this
      ensures r.None? <==> forall j :: 0 <= j < |items| ==> !p(items[j], j, items)
      ensures r.Some? ==> exists i :: 0 <= i < |items| && r.value == items[i] && p(items[i], i, items)
                                   && forall j :: 0 <= j < i ==> !p(items[j], j, items)
    {
      NativeArray.Find(items, p)
    }

    /** `filter(p)`: the elements satisfying `p`, in order. */
    function Filter(p: NativeArray.Callback<T, bool>): (r: seq<T>)
      reads this
      ensures NativeArray.IsOrderedSelection(r, items, NativeArray.KeptIndices(items, p))
      ensures forall i :: 0 <= i < |items| ==> (i in NativeArray.KeptIndices(items, p) <==> p(items[i], i, items))
    {
      NativeArray.FilterSelects(items, p);
      NativeArray.Filter(items, p)
    }

    /** `some(p)`: whether some element satisfies `p`. */
    function Some(p: NativeArray.Callback<T, bool>): (r: bool)
      reads this
      ensures r <==> exists j :: 0 <= j < |items| && p(items[j], j, items)
    {
      NativeArray.Any(items, p)
    }

    /** `every(p)`: whether all elements satisfy `p`. */
    function Every(p: NativeArray.Callback<T, bool>): (r: bool)
      reads this
      ensures r <==> forall j :: 0 <= j < |items| ==> p(items[j], j, items)
    {
      NativeArray.All(items, p)
    }

    /** `map(f)`: `f` applied at every position. */
    function Map<U>(f: NativeArray.Callback<T, U>): (r: seq<U>)
      reads this
      ensures |r| == |items|
      ensures forall i :: 0 <= i < |items| ==> r[i] == f(items[i], i, items)
    {
      NativeArray.Map(items, f)
    }

    /**
     * `reduce(f, initialValue?)`: a present seed takes the seeded path (the left
     * fold from the seed); otherwise the fold starts from the first element, and an
     * empty collection throws.
     */
    function Reduce(f: NativeArray.Reducer<T>, initialValue: Option<T>): (r: Result<T, NativeArray.ArrayError>)
      reads this
      ensures r.Failure? <==> initialValue.None? && items == []
      ensures initialValue.Some? ==> r == Success(NativeArray.LeftFold(items, f, initialValue.value, 0, |items|))
      ensures initialValue.None? && items != [] ==> r == Success(NativeArray.LeftFold(items, f, items[0], 1, |items|))
    {
      if initialValue.Some? then
        NativeArray.ReduceIsLeftFold(items, f, initialValue.value);
        NativeArray.Reduce(items, f, initialValue)
      else if items != [] then
        NativeArray.ReduceIsLeftFold(items, f, items[0]);
        NativeArray.Reduce(items, f, initialValue)
      else
        NativeArray.Reduce(items, f, initialValue)
    }

    /** `reduceRight(f, initialValue?)`: `reduce` run from the last element to the first. */
    function ReduceRight(f: NativeArray.Reducer<T>, initialValue: Option<T>): (r: Result<T, NativeArray.ArrayError>)
      reads this
      ensures r.Failure? <==> initialValue.None? && items == []
      ensures r == NativeArray.Reduce(NativeArray.Reversed(items), NativeArray.Mirrored(items, f), initialValue)
    {
      NativeArray.ReduceRightIsMirroredReduce(items, f, initialValue);
      NativeArray.ReduceRight(items, f, initialValue)
    }

    /** `at(index)`: the element at a relative index, absent when out of range. */
    function At(index: int): (r: Option<T>)
      reads this
      ensures r.Some? <==> -|items| <= index < |items|
      ensures 0 <= index < |items| ==> r == Option.Some(items[index])
      ensures -|items| <= index < 0 ==> r == Option.Some(items[|items| + index])
    {
      NativeArray.At(items, index)
    }

    /** `slice(start?, end?)`: the elements between two clamped relative indices. */
    function Slice(start: Option<int>, end: Option<int>): (r: seq<T>)
      reads this
      ensures var k := NativeArray.ClampIndex(start.GetOr(0), |items|);
              var final := NativeArray.ClampIndex(end.GetOr(|items|), |items|);
              r == if k < final then items[k..final] else []
    {
      NativeArray.Slice(items, start, end)
    }

    /** `concat(...parts)`: the elements followed by each part in turn. */
    function Concat(parts: seq<seq<T>>): (r: seq<T>)
      reads this
      ensures |r| >= |items| && r[..|items|] == items
      ensures parts == [] ==> r == items
      ensures |parts| == 1 ==> r == items + parts[0]
    {
      if |parts| == 1 then
        assert parts == [parts[0]];
        NativeArray.ConcatOne(items, parts[0]);
        NativeArray.Concat(items, parts)
      else
        NativeArray.Concat(items, parts)
    }
  }
}
