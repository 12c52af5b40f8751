/**
 * The built-in `Array.prototype` methods that CollectionValueObject delegates to, as
 * ECMA-262 (2024 edition, section 23.1.3) defines them for a dense array of values.
 * Read-only methods are functions on `seq`; `fill` and `copyWithin`, which the
 * standard defines as loops that write the array in place, are methods on `array`.
 * Index arguments are mathematical integers (the standard's ToIntegerOrInfinity of
 * an integral number), and callbacks are pure functions that receive the element,
 * its index and the whole array.
 */
module NativeArray {
  import opened Wrappers

  /** A `(value, index, array) => R` callback, as `filter`, `map`, `find`, ... call it. */
  type Callback<!T, R> = (T, nat, seq<T>) -> R

  /** A `(previousValue, currentValue, currentIndex, array) => T` callback of `reduce`. */
  type Reducer<!T> = (T, T, nat, seq<T>) -> T

  /** The only failure here: the TypeError of `reduce` on an empty array with no seed. */
  datatype ArrayError = EmptyArrayWithoutInitialValue

  // ---------------------------------------------------------------------------
  // Relative indices
  // ---------------------------------------------------------------------------

  /**
   * Turns a relative index into a position in `[0, len]`: a negative index counts
   * back from the end, and anything out of range is clamped (the `relativeStart`
   * steps of `slice`, `splice`, `fill` and `copyWithin`).
   */
  function ClampIndex(relative: int, len: nat): (r: nat)
    ensures r <= len
    ensures 0 <= relative <= len ==> r == relative
    ensures len < relative ==> r == len
    ensures relative < 0 && 0 <= len + relative ==> r == len + relative
    ensures len + relative < 0 ==> r == 0
  {
    if relative < 0 then
      (if len + relative < 0 then 0 else len + relative)
    else if relative < len then relative else len
  }

  /** `at` (23.1.3.1): the element at a relative index, absent when out of range. */
  function At<T>(a: seq<T>, index: int): (r: Option<T>)
    ensures r.Some? <==> -|a| <= index < |a|
    ensures 0 <= index < |a| ==> r == Some(a[index])
    ensures -|a| <= index < 0 ==> r == Some(a[|a| + index])
  {
    var k := if index >= 0 then index else |a| + index;
    if 0 <= k < |a| then Some(a[k]) else None
  }

  /** `slice` (23.1.3.28): the run between two clamped relative indices. */
  function Slice<T>(a: seq<T>, start: Option<int>, end: Option<int>): (r: seq<T>)
    ensures var k := ClampIndex(start.GetOr(0), |a|);
            var final := ClampIndex(end.GetOr(|a|), |a|);
            r == if k < final then a[k..final] else []
  {
    var k := ClampIndex(start.GetOr(0), |a|);
    var final := ClampIndex(end.GetOr(|a|), |a|);
    var count := if final > k then final - k else 0;
    seq(count, n requires 0 <= n < count => a[k + n])
  }

  /** Slicing before and after the same index gives back the whole array. */
  lemma SliceSplits<T>(a: seq<T>, index: int)
    ensures Slice(a, None, Some(index)) + Slice(a, Some(index), None) == a
  {
    var k := ClampIndex(index, |a|);
    assert a[0..k] + a[k..|a|] == a;
  }

  // ---------------------------------------------------------------------------
  // splice
  // ---------------------------------------------------------------------------

  /**
   * `actualDeleteCount` of `splice` (23.1.3.31): everything from `start` when the
   * count is omitted, otherwise the count clamped to `[0, len - start]`.
   */
  function DeleteCount(len: nat, start: nat, deleteCount: Option<int>): (d: nat)
    requires start <= len
    ensures start + d <= len
    ensures deleteCount.None? ==> d == len - start
    ensures deleteCount.Some? && 0 <= deleteCount.value <= len - start ==> d == deleteCount.value
    ensures deleteCount.Some? && deleteCount.value < 0 ==> d == 0
    ensures deleteCount.Some? && len - start < deleteCount.value ==> d == len - start
  {
    match deleteCount
    case None => len - start
    case Some(dc) => if dc < 0 then 0 else if dc > len - start then len - start else dc
  }

  /**
   * `splice(start, deleteCount?, ...items)` (23.1.3.31) with `start` present: the
   * removed elements and the new contents of the array.
   */
  function Splice<T>(a: seq<T>, start: int, deleteCount: Option<int>, items: seq<T>): (r: (seq<T>, seq<T>))
    ensures var s := ClampIndex(start, |a|);
            var d := DeleteCount(|a|, s, deleteCount);
            && r.0 == a[s..s + d]
            && r.1 == a[..s] + items + a[s + d..]
  {
    var s := ClampIndex(start, |a|);
    var d := DeleteCount(|a|, s, deleteCount);
    (Slice(a, Some(s), Some(s + d)), Slice(a, None, Some(s)) + items + Slice(a, Some(s + d), None))
  }

  /** The three pieces of `u + v + w` are recovered by slicing at their boundaries. */
  lemma ConcatPieces<T>(u: seq<T>, v: seq<T>, w: seq<T>)
    ensures var b := u + v + w;
            && b[..|u|] == u
            && b[|u|..|u| + |v|] == v
            && b[|u| + |v|..] == w
  {
  }

  /** `Splice` at an in-range start with an in-range count. */
  lemma SpliceInRange<T>(b: seq<T>, s: nat, n: nat, items: seq<T>)
    requires s + n <= |b|
    ensures Splice(b, s, Some(n), items) == (b[s..s + n], b[..s] + items + b[s + n..])
  {
    assert ClampIndex(s, |b|) == s;
    assert DeleteCount(|b|, s, Some(n)) == n;
  }

  /** Cutting `a` at `i` and `j` and joining the three pieces gives `a` back. */
  lemma SplitJoin<T>(a: seq<T>, i: nat, j: nat)
    requires i <= j <= |a|
    ensures a[..i] + a[i..j] + a[j..] == a
  {
  }

  /** Splicing the removed elements back in over the inserted ones restores the array. */
  lemma SpliceUndo<T>(a: seq<T>, start: int, deleteCount: Option<int>, items: seq<T>)
    ensures var s := ClampIndex(start, |a|);
            var r := Splice(a, start, deleteCount, items);
            Splice(r.1, s, Some(|items|), r.0) == (items, a)
  {
    var s := ClampIndex(start, |a|);
    var d := DeleteCount(|a|, s, deleteCount);
    var u, w := a[..s], a[s + d..];
    var removed := a[s..s + d];
    var b := u + items + w;
    assert Splice(a, start, deleteCount, items) == (removed, b);
    ConcatPieces(u, items, w);
    SpliceInRange(b, |u|, |items|, removed);
    SplitJoin(a, s, s + d);
  }

  // ---------------------------------------------------------------------------
  // Searching
  // ---------------------------------------------------------------------------

  /** The loop of `findIndex` (23.1.3.10) from index `k`: the first match, or -1. */
  function FindIndexFrom<T>(a: seq<T>, p: Callback<T, bool>, k: nat): (r: int)
    requires k <= |a|
    ensures r == -1 || k <= r < |a|
    ensures 0 <= r ==> p(a[r], r, a) && forall j :: k <= j < r ==> !p(a[j], j, a)
    ensures r == -1 ==> forall j :: k <= j < |a| ==> !p(a[j], j, a)
    decreases |a| - k
  {
    if k == |a| then -1
    else if p(a[k], k, a) then k
    else FindIndexFrom(a, p, k + 1)
  }

  /** `findIndex`: the least index whose element satisfies `p`, or -1. */
  function FindIndex<T>(a: seq<T>, p: Callback<T, bool>): (r: int)
    ensures -1 <= r < |a|
    ensures 0 <= r ==> p(a[r], r, a) && forall j :: 0 <= j < r ==> !p(a[j], j, a)
    ensures r == -1 <==> forall j :: 0 <= j < |a| ==> !p(a[j], j, a)
  {
    FindIndexFrom(a, p, 0)
  }

  /** The loop of `find` (23.1.3.9) from index `k`: the first matching element. */
  function FindFrom<T>(a: seq<T>, p: Callback<T, bool>, k: nat): (r: Option<T>)
    requires k <= |a|
    decreases |a| - k
  {
    if k == |a| then None
    else if p(a[k], k, a) then Some(a[k])
    else FindFrom(a, p, k + 1)
  }

  /**
   * `find`: the first element satisfying `p`, absent when there is none; that
   * is, the element at the index `findIndex` reports.
   */
  function Find<T>(a: seq<T>, p: Callback<T, bool>): (r: Option<T>)
    ensures var i := FindIndex(a, p);
            r == if i < 0 then None else Some(a[i])
  {
    FindFromAgreesWithFindIndexFrom(a, p, 0);
    FindFrom(a, p, 0)
  }

  /** `find` yields the element at the index `findIndex` reports. */
  lemma {:induction false} FindFromAgreesWithFindIndexFrom<T>(a: seq<T>, p: Callback<T, bool>, k: nat)
    requires k <= |a|
    ensures var i := FindIndexFrom(a, p, k);
            FindFrom(a, p, k) == if i < 0 then None else Some(a[i])
    decreases |a| - k
  {
    if k < |a| && !p(a[k], k, a) {
      FindFromAgreesWithFindIndexFrom(a, p, k + 1);
    }
  }

  /** The loop of `some` (23.1.3.29) from index `k`. */
  function SomeFrom<T>(a: seq<T>, p: Callback<T, bool>, k: nat): (r: bool)
    requires k <= |a|
    ensures r <==> exists j :: k <= j < |a| && p(a[j], j, a)
    decreases |a| - k
  {
    if k == |a| then false
    else if p(a[k], k, a) then true
    else SomeFrom(a, p, k + 1)
  }

  /** `some`: whether some element satisfies `p`. */
  function Any<T>(a: seq<T>, p: Callback<T, bool>): (r: bool)
    ensures r <==> exists j :: 0 <= j < |a| && p(a[j], j, a)
  {
    SomeFrom(a, p, 0)
  }

  /** The loop of `every` (23.1.3.6) from index `k`. */
  function EveryFrom<T>(a: seq<T>, p: Callback<T, bool>, k: nat): (r: bool)
    requires k <= |a|
    ensures r <==> forall j :: k <= j < |a| ==> p(a[j], j, a)
    decreases |a| - k
  {
    if k == |a| then true
    else if !p(a[k], k, a) then false
    else EveryFrom(a, p, k + 1)
  }

  /** `every`: whether all elements satisfy `p` (true of the empty array). */
  function All<T>(a: seq<T>, p: Callback<T, bool>): (r: bool)
    ensures r <==> forall j :: 0 <= j < |a| ==> p(a[j], j, a)
  {
    EveryFrom(a, p, 0)
  }

  /** `some` holds exactly when `findIndex` finds a match, and `every` is `some` of the negation, negated. */
  lemma SearchesAgree<T>(a: seq<T>, p: Callback<T, bool>)
    ensures Any(a, p) <==> FindIndex(a, p) >= 0
    ensures All(a, p) <==> !Any(a, (x, i, s) => !p(x, i, s))
  {
  }

  // ---------------------------------------------------------------------------
  // filter and map
  // ---------------------------------------------------------------------------

  /** The loop of `filter` (23.1.3.8) from index `k`. */
  function FilterFrom<T>(a: seq<T>, p: Callback<T, bool>, k: nat): (r: seq<T>)
    requires k <= |a|
    ensures |r| <= |a| - k
    decreases |a| - k
  {
    if k == |a| then []
    else (if p(a[k], k, a) then [a[k]] else []) + FilterFrom(a, p, k + 1)
  }

  /** `filter`: the elements satisfying `p`, in order. */
  function Filter<T>(a: seq<T>, p: Callback<T, bool>): (r: seq<T>)
    ensures |r| <= |a|
  {
    FilterFrom(a, p, 0)
  }

  /** The indices, from `k` on, whose elements satisfy `p`, in increasing order. */
  function KeptIndicesFrom<T>(a: seq<T>, p: Callback<T, bool>, k: nat): seq<nat>
    requires k <= |a|
    decreases |a| - k
  {
    if k == |a| then []
    else (if p(a[k], k, a) then [k] else []) + KeptIndicesFrom(a, p, k + 1)
  }

  /** The indices whose elements satisfy `p`, in increasing order. */
  function KeptIndices<T>(a: seq<T>, p: Callback<T, bool>): seq<nat>
  {
    KeptIndicesFrom(a, p, 0)
  }

  /** Strictly increasing positions. */
  ghost predicate Increasing(idx: seq<nat>)
  {
    forall j, j' :: 0 <= j < j' < |idx| ==> idx[j] < idx[j']
  }

  /** `r` is the subsequence of `a` at the strictly increasing positions `idx`. */
  ghost predicate IsOrderedSelection<T>(r: seq<T>, a: seq<T>, idx: seq<nat>)
  {
    && |idx| == |r|
    && (forall j :: 0 <= j < |idx| ==> idx[j] < |a| && r[j] == a[idx[j]])
    && Increasing(idx)
  }

  lemma {:induction false} KeptIndicesFromBounded<T>(a: seq<T>, p: Callback<T, bool>, k: nat)
    requires k <= |a|
    ensures forall j :: 0 <= j < |KeptIndicesFrom(a, p, k)| ==>
              var i := KeptIndicesFrom(a, p, k)[j]; k <= i < |a| && p(a[i], i, a)
    decreases |a| - k
  {
    if k < |a| {
      KeptIndicesFromBounded(a, p, k + 1);
      var idx' := KeptIndicesFrom(a, p, k + 1);
      var idx := KeptIndicesFrom(a, p, k);
      if p(a[k], k, a) {
        assert idx == [k] + idx';
        forall j | 0 <= j < |idx|
          ensures k <= idx[j] < |a| && p(a[idx[j]], idx[j], a)
        {
          if j > 0 { assert idx[j] == idx'[j - 1]; }
        }
      } else {
        assert idx == idx';
      }
    }
  }

  /** A position below all of an increasing `idx` may be put in front of it. */
  lemma PrependIncreasing(k: nat, idx: seq<nat>)
    requires Increasing(idx)
    requires forall j :: 0 <= j < |idx| ==> k < idx[j]
    ensures Increasing([k] + idx)
  {
    var r := [k] + idx;
    forall j, j' | 0 <= j < j' < |r|
      ensures r[j] < r[j']
    {
      assert r[j'] == idx[j' - 1];
      if j > 0 { assert r[j] == idx[j - 1]; }
    }
  }

  lemma {:induction false} KeptIndicesFromIncreasing<T>(a: seq<T>, p: Callback<T, bool>, k: nat)
    requires k <= |a|
    ensures Increasing(KeptIndicesFrom(a, p, k))
    decreases |a| - k
  {
    if k < |a| {
      KeptIndicesFromIncreasing(a, p, k + 1);
      KeptIndicesFromBounded(a, p, k + 1);
      var idx' := KeptIndicesFrom(a, p, k + 1);
      if p(a[k], k, a) {
        assert forall j :: 0 <= j < |idx'| ==> k < idx'[j];
        PrependIncreasing(k, idx');
        assert KeptIndicesFrom(a, p, k) == [k] + idx';
      } else {
        assert KeptIndicesFrom(a, p, k) == idx';
      }
    }
  }

  lemma {:induction false} KeptIndicesFromComplete<T>(a: seq<T>, p: Callback<T, bool>, k: nat)
    requires k <= |a|
    ensures forall i :: k <= i < |a| && p(a[i], i, a) ==> i in KeptIndicesFrom(a, p, k)
    decreases |a| - k
  {
    if k < |a| {
      KeptIndicesFromComplete(a, p, k + 1);
      var idx' := KeptIndicesFrom(a, p, k + 1);
      var idx := KeptIndicesFrom(a, p, k);
      assert idx == (if p(a[k], k, a) then [k] else []) + idx';
      forall i | k <= i < |a| && p(a[i], i, a)
        ensures i in idx
      {
        if i > k { assert i in idx'; }
      }
    }
  }

  lemma {:induction false} FilterFromAtKept<T>(a: seq<T>, p: Callback<T, bool>, k: nat)
    requires k <= |a|
    ensures var idx := KeptIndicesFrom(a, p, k);
            var r := FilterFrom(a, p, k);
            |r| == |idx| && forall j :: 0 <= j < |idx| ==> idx[j] < |a| && r[j] == a[idx[j]]
    decreases |a| - k
  {
    if k < |a| {
      FilterFromAtKept(a, p, k + 1);
      var idx' := KeptIndicesFrom(a, p, k + 1);
      var r' := FilterFrom(a, p, k + 1);
      if p(a[k], k, a) {
        var idx := [k] + idx';
        var r := [a[k]] + r';
        assert idx == KeptIndicesFrom(a, p, k);
        assert r == FilterFrom(a, p, k);
        forall j | 0 <= j < |idx|
          ensures idx[j] < |a| && r[j] == a[idx[j]]
        {
          if j > 0 { assert idx[j] == idx'[j - 1] && r[j] == r'[j - 1]; }
        }
      } else {
        assert KeptIndicesFrom(a, p, k) == idx';
        assert FilterFrom(a, p, k) == r';
      }
    }
  }

  /**
   * `filter` keeps exactly the elements whose (element, index) satisfy `p`, in
   * their original order: the result is `a` at the increasing positions
   * `KeptIndices(a, p)`, and a position is among them iff `p` holds there.
   */
  lemma FilterSelects<T>(a: seq<T>, p: Callback<T, bool>)
    ensures IsOrderedSelection(Filter(a, p), a, KeptIndices(a, p))
    ensures forall i :: 0 <= i < |a| ==> (i in KeptIndices(a, p) <==> p(a[i], i, a))
  {
    KeptIndicesFromBounded(a, p, 0);
    KeptIndicesFromIncreasing(a, p, 0);
    KeptIndicesFromComplete(a, p, 0);
    FilterFromAtKept(a, p, 0);
    var idx := KeptIndices(a, p);
    forall i | 0 <= i < |a| && i in idx
      ensures p(a[i], i, a)
    {
      var j :| 0 <= j < |idx| && idx[j] == i;
    }
  }

  /**
   * For a predicate on the element alone, every kept element satisfies it and
   * every element that fails it is gone.
   */
  lemma FilterByValue<T>(a: seq<T>, p: Callback<T, bool>, q: T -> bool)
    requires forall x, i, s :: p(x, i, s) == q(x)
    ensures var r := Filter(a, p);
            && (forall j :: 0 <= j < |r| ==> q(r[j]))
            && (forall i :: 0 <= i < |a| && !q(a[i]) ==> a[i] !in r)
  {
    FilterSelects(a, p);
    var r := Filter(a, p);
    var idx := KeptIndices(a, p);
    forall j | 0 <= j < |r|
      ensures q(r[j])
    {
      assert r[j] == a[idx[j]];
      assert idx[j] in idx;
      assert p(a[idx[j]], idx[j], a);
    }
  }

  /** The loop of `map` (23.1.3.21) from index `k`. */
  function MapFrom<T, U>(a: seq<T>, f: Callback<T, U>, k: nat): (r: seq<U>)
    requires k <= |a|
    ensures |r| == |a| - k
    ensures forall i :: 0 <= i < |r| ==> r[i] == f(a[k + i], k + i, a)
    decreases |a| - k
  {
    if k == |a| then [] else [f(a[k], k, a)] + MapFrom(a, f, k + 1)
  }

  /** `map`: the callback applied at every position. */
  function Map<T, U>(a: seq<T>, f: Callback<T, U>): (r: seq<U>)
    ensures |r| == |a|
    ensures forall i :: 0 <= i < |a| ==> r[i] == f(a[i], i, a)
  {
    MapFrom(a, f, 0)
  }

  // ---------------------------------------------------------------------------
  // reduce and reduceRight
  // ---------------------------------------------------------------------------

  /** The loop of `reduce` (23.1.3.24) from index `k` with accumulator `acc`. */
  function FoldFrom<T>(a: seq<T>, f: Reducer<T>, acc: T, k: nat): T
    requires k <= |a|
    decreases |a| - k
  {
    if k == |a| then acc else FoldFrom(a, f, f(acc, a[k], k, a), k + 1)
  }

  /**
   * `reduce(f, initialValue?)`: the fold from the seed, or, without one, from the
   * first element over the rest; a TypeError on an empty array without a seed.
   */
  function Reduce<T>(a: seq<T>, f: Reducer<T>, initialValue: Option<T>): (r: Result<T, ArrayError>)
    ensures r.Failure? <==> initialValue.None? && |a| == 0
  {
    match initialValue
    case Some(seed) => Success(FoldFrom(a, f, seed, 0))
    case None => if |a| == 0 then Failure(EmptyArrayWithoutInitialValue) else Success(FoldFrom(a, f, a[0], 1))
  }

  /** Reference left fold: `acc` combined with the elements at `lo..hi-1`, last one outermost. */
  function LeftFold<T>(a: seq<T>, f: Reducer<T>, acc: T, lo: nat, hi: nat): T
    requires lo <= hi <= |a|
    decreases hi - lo
  {
    if hi == lo then acc else f(LeftFold(a, f, acc, lo, hi - 1), a[hi - 1], hi - 1, a)
  }

  lemma {:induction false} FoldFromIsLeftFold<T>(a: seq<T>, f: Reducer<T>, acc: T, lo: nat, k: nat)
    requires lo <= k <= |a|
    ensures FoldFrom(a, f, LeftFold(a, f, acc, lo, k), k) == LeftFold(a, f, acc, lo, |a|)
    decreases |a| - k
  {
    if k < |a| {
      assert f(LeftFold(a, f, acc, lo, k), a[k], k, a) == LeftFold(a, f, acc, lo, k + 1);
      FoldFromIsLeftFold(a, f, acc, lo, k + 1);
    }
  }

  /**
   * `reduce` with a seed is the left fold of the whole array from the seed;
   * without one it is the left fold of the rest from the first element.
   */
  lemma ReduceIsLeftFold<T>(a: seq<T>, f: Reducer<T>, seed: T)
    ensures Reduce(a, f, Some(seed)) == Success(LeftFold(a, f, seed, 0, |a|))
    ensures |a| > 0 ==> Reduce(a, f, None) == Success(LeftFold(a, f, a[0], 1, |a|))
  {
    FoldFromIsLeftFold(a, f, seed, 0, 0);
    if |a| > 0 {
      FoldFromIsLeftFold(a, f, a[0], 1, 1);
    }
  }

  /**
   * On a non-empty array, omitting the seed gives the same result as passing a
   * left identity of the reducer (`reduce((x, y) => x + y, 0)` on numbers).
   */
  lemma ReduceWithoutSeedIsReduceFromIdentity<T>(a: seq<T>, f: Reducer<T>, e: T)
    requires |a| > 0
    requires forall x: T, i: nat, s: seq<T> :: f(e, x, i, s) == x
    ensures Reduce(a, f, None) == Reduce(a, f, Some(e))
  {
    assert FoldFrom(a, f, e, 0) == FoldFrom(a, f, f(e, a[0], 0, a), 1);
  }

  /** The loop of `reduceRight` (23.1.3.25) downwards from index `k - 1`. */
  function FoldRightFrom<T>(a: seq<T>, f: Reducer<T>, acc: T, k: nat): T
    requires k <= |a|
    decreases k
  {
    if k == 0 then acc else FoldRightFrom(a, f, f(acc, a[k - 1], k - 1, a), k - 1)
  }

  /** `reduceRight(f, initialValue?)`: `reduce` from the last element towards the first. */
  function ReduceRight<T>(a: seq<T>, f: Reducer<T>, initialValue: Option<T>): (r: Result<T, ArrayError>)
    ensures r.Failure? <==> initialValue.None? && |a| == 0
  {
    match initialValue
    case Some(seed) => Success(FoldRightFrom(a, f, seed, |a|))
    case None =>
      if |a| == 0 then Failure(EmptyArrayWithoutInitialValue)
      else Success(FoldRightFrom(a, f, a[|a| - 1], |a| - 1))
  }

  /** The reversed array, element `i` taken from position `|s| - 1 - i`. */
  function Reversed<T>(s: seq<T>): (r: seq<T>)
    ensures |r| == |s|
    ensures forall i :: 0 <= i < |s| ==> r[i] == s[|s| - 1 - i]
  {
    if s == [] then [] else [s[|s| - 1]] + Reversed(s[..|s| - 1])
  }

  /** Reversing twice gives back the array. */
  lemma ReversedTwice<T>(s: seq<T>)
    ensures Reversed(Reversed(s)) == s
  {
  }

  /** A reducer over the reversed array that reports the index and array of `a`. */
  function Mirrored<T>(a: seq<T>, f: Reducer<T>): Reducer<T>
  {
    (acc: T, x: T, i: nat, s: seq<T>) => f(acc, x, if i < |a| then |a| - 1 - i else 0, a)
  }

  lemma {:induction false} FoldRightFromIsMirroredFold<T>(a: seq<T>, f: Reducer<T>, acc: T, k: nat)
    requires k <= |a|
    ensures FoldRightFrom(a, f, acc, k) == FoldFrom(Reversed(a), Mirrored(a, f), acc, |a| - k)
    decreases k
  {
    if k > 0 {
      var r := Reversed(a);
      var j := |a| - k;
      assert r[j] == a[k - 1];
      assert Mirrored(a, f)(acc, r[j], j, r) == f(acc, a[k - 1], k - 1, a);
      FoldRightFromIsMirroredFold(a, f, f(acc, a[k - 1], k - 1, a), k - 1);
    }
  }

  /**
   * `reduceRight` is `reduce` over the reversed array with the callback seeing the
   * original indices: the mirror image of `reduce`, seed or no seed.
   */
  lemma ReduceRightIsMirroredReduce<T>(a: seq<T>, f: Reducer<T>, initialValue: Option<T>)
    ensures ReduceRight(a, f, initialValue) == Reduce(Reversed(a), Mirrored(a, f), initialValue)
  {
    match initialValue
    case Some(seed) =>
      FoldRightFromIsMirroredFold(a, f, seed, |a|);
    case None =>
      if |a| > 0 {
        assert Reversed(a)[0] == a[|a| - 1];
        FoldRightFromIsMirroredFold(a, f, a[|a| - 1], |a| - 1);
      }
  }

  // ---------------------------------------------------------------------------
  // concat
  // ---------------------------------------------------------------------------

  /** The arrays of `parts` one after another. */
  function Flatten<T>(parts: seq<seq<T>>): seq<T>
  {
    if parts == [] then [] else parts[0] + Flatten(parts[1..])
  }

  /** `concat(...parts)` (23.1.3.2) with every argument an array: `a` followed by each part. */
  function Concat<T>(a: seq<T>, parts: seq<seq<T>>): (r: seq<T>)
    ensures |r| >= |a| && r[..|a|] == a
  {
    a + Flatten(parts)
  }

  lemma {:induction false} FlattenAppend<T>(p: seq<seq<T>>, q: seq<seq<T>>)
    ensures Flatten(p + q) == Flatten(p) + Flatten(q)
  {
    if p != [] {
      assert (p + q)[1..] == p[1..] + q;
      FlattenAppend(p[1..], q);
    } else {
      assert p + q == q;
    }
  }

  /** Concatenating several arrays at once is concatenating them one call after another. */
  lemma ConcatInSteps<T>(a: seq<T>, p: seq<seq<T>>, q: seq<seq<T>>)
    ensures Concat(a, p + q) == Concat(Concat(a, p), q)
  {
    FlattenAppend(p, q);
  }

  /** `concat` with one array argument appends it. */
  lemma ConcatOne<T>(a: seq<T>, b: seq<T>)
    ensures Concat(a, [b]) == a + b
  {
    assert [b][1..] == [];
    assert Flatten([b]) == b + Flatten([b][1..]);
  }

  // ---------------------------------------------------------------------------
  // fill and copyWithin: specifications and the in-place loops of the standard
  // ---------------------------------------------------------------------------

  /** `fill(value, start?, end?)` (23.1.3.7) as a value: `value` over the clamped range. */
  function Filled<T>(a: seq<T>, value: T, start: Option<int>, end: Option<int>): (r: seq<T>)
    ensures |r| == |a|
    ensures var k := ClampIndex(start.GetOr(0), |a|);
            var final := ClampIndex(end.GetOr(|a|), |a|);
            forall i :: 0 <= i < |a| ==> r[i] == if k <= i < final then value else a[i]
  {
    var k := ClampIndex(start.GetOr(0), |a|);
    var final := ClampIndex(end.GetOr(|a|), |a|);
    if k < final then a[..k] + seq(final - k, _ => value) + a[final..] else a
  }

  /** Filling twice with the same arguments is filling once. */
  lemma FilledIdempotent<T>(a: seq<T>, value: T, start: Option<int>, end: Option<int>)
    ensures Filled(Filled(a, value, start, end), value, start, end) == Filled(a, value, start, end)
  {
  }

  /** The loop of `fill`: writes `value` at each clamped position of `a`. */
  method FillInPlace<T>(a: array<T>, value: T, start: Option<int>, end: Option<int>)
    modifies a
    ensures a[..] == Filled(old(a[..]), value, start, end)
  {
    var k := ClampIndex(start.GetOr(0), a.Length);
    var final := ClampIndex(end.GetOr(a.Length), a.Length);
    ghost var k0, s := k, a[..];
    while k < final
      invariant k0 <= k && (k <= final || k == k0)
      invariant forall i :: k0 <= i < k ==> a[i] == value
      invariant forall i :: 0 <= i < a.Length && !(k0 <= i < k) ==> a[i] == s[i]
    {
      a[k] := value;
      k := k + 1;
    }
    ghost var r := Filled(s, value, start, end);
    forall i | 0 <= i < a.Length
      ensures a[..][i] == r[i]
    {
    }
  }

  /** `count` of `copyWithin` (23.1.3.4): how many elements fit from `from` to `to`. */
  function CopyCount(len: nat, to: nat, from: nat, final: nat): (count: nat)
    requires to <= len && from <= len && final <= len
    ensures to + count <= len && from + count <= len
    ensures 0 < count ==> from + count <= final
    ensures count == 0 || to + count == len || from + count == final
    ensures 0 < count <==> from < final && to < len
  {
    var c := if final - from < len - to then final - from else len - to;
    if c < 0 then 0 else c
  }

  /**
   * `t` is `s` with the `count` elements from `from` copied to the positions
   * starting at `to`, all read from `s`.
   */
  ghost predicate CopiedRun<T>(t: seq<T>, s: seq<T>, to: nat, from: nat, count: nat)
  {
    && |t| == |s|
    && (forall i :: 0 <= i < |s| && to <= i < to + count ==> from + (i - to) < |s| && t[i] == s[from + (i - to)])
    && (forall i :: 0 <= i < |s| && !(to <= i < to + count) ==> t[i] == s[i])
  }

  /** The copied run determines the result. */
  lemma CopiedRunUnique<T>(t: seq<T>, u: seq<T>, s: seq<T>, to: nat, from: nat, count: nat)
    requires CopiedRun(t, s, to, from, count) && CopiedRun(u, s, to, from, count)
    ensures t == u
  {
    forall i | 0 <= i < |s|
      ensures t[i] == u[i]
    {
      if to <= i < to + count {
      } else {
      }
    }
  }

  /**
   * `copyWithin(target, start, end?)` as a value: the clamped run starting at
   * `start` is copied over the positions starting at `target`, read before any write.
   */
  function CopiedWithin<T>(a: seq<T>, target: int, start: int, end: Option<int>): (r: seq<T>)
    ensures var to := ClampIndex(target, |a|);
            var from := ClampIndex(start, |a|);
            CopiedRun(r, a, to, from, CopyCount(|a|, to, from, ClampIndex(end.GetOr(|a|), |a|)))
  {
    var to := ClampIndex(target, |a|);
    var from := ClampIndex(start, |a|);
    var count := CopyCount(|a|, to, from, ClampIndex(end.GetOr(|a|), |a|));
    var r := a[..to] + a[from..from + count] + a[to + count..];
    assert forall i :: 0 <= i < |a| && to <= i < to + count ==> r[i] == a[from + (i - to)];
    r
  }

  /** Copying a run onto itself changes nothing. */
  lemma CopiedWithinOntoItself<T>(a: seq<T>, index: int, end: Option<int>)
    ensures CopiedWithin(a, index, index, end) == a
  {
    var r := CopiedWithin(a, index, index, end);
    forall i | 0 <= i < |a|
      ensures r[i] == a[i]
    {
    }
  }

  /** The upward loop of `copyWithin`: the run is copied from `from` to `to`, lowest position first. */
  method CopyUpwards<T>(a: array<T>, to: nat, from: nat, count: nat)
    requires to + count <= a.Length && from + count <= a.Length
    requires !(from < to < from + count)
    modifies a
    ensures CopiedRun(a[..], old(a[..]), to, from, count)
  {
    ghost var s := a[..];
    var m := 0;
    while m < count
      invariant 0 <= m <= count
      invariant forall i :: to <= i < to + m ==> a[i] == s[from + (i - to)]
      invariant forall i :: 0 <= i < a.Length && !(to <= i < to + m) ==> a[i] == s[i]
    {
      a[to + m] := a[from + m];
      m := m + 1;
    }
  }

  /** The downward loop of `copyWithin`, for a source run below an overlapping target run. */
  method CopyDownwards<T>(a: array<T>, to: nat, from: nat, count: nat)
    requires to + count <= a.Length && from < to
    modifies a
    ensures CopiedRun(a[..], old(a[..]), to, from, count)
  {
    ghost var s := a[..];
    var m := count;
    while m > 0
      invariant 0 <= m <= count
      invariant forall i :: to + m <= i < to + count ==> a[i] == s[from + (i - to)]
      invariant forall i :: 0 <= i < a.Length && !(to + m <= i < to + count) ==> a[i] == s[i]
    {
      m := m - 1;
      a[to + m] := a[from + m];
    }
  }

  /**
   * The loop of `copyWithin`: element by element, downwards when the source run
   * lies below an overlapping target run and upwards otherwise, so that no
   * element is overwritten before it is read.
   */
  method CopyWithinInPlace<T>(a: array<T>, target: int, start: int, end: Option<int>)
    modifies a
    ensures a[..] == CopiedWithin(old(a[..]), target, start, end)
  {
    ghost var s := a[..];
    var len := a.Length;
    var to := ClampIndex(target, len);
    var from := ClampIndex(start, len);
    var count := CopyCount(len, to, from, ClampIndex(end.GetOr(len), len));
    if from < to < from + count {
      CopyDownwards(a, to, from, count);
    } else {
      CopyUpwards(a, to, from, count);
    }
    CopiedRunUnique(a[..], CopiedWithin(s, target, start, end), s, to, from, count);
  }
}
