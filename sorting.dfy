/**
 * `Array.prototype.sort(comparefn)` (ECMA-262, 2024 edition, section 23.1.3.30)
 * with a supplied comparator. The standard fixes the result only up to
 * "sorted and stable" when the comparator is consistent on the array's elements;
 * the model is one such sort, a stable insertion sort, and the lemmas below prove
 * that it returns a permutation of its input for every comparator, and a sorted
 * and stable one for every comparator consistent on the elements.
 */
module Sorting {

  /** A `(a, b) => number` comparator: negative puts `a` first, positive puts `b` first. */
  type Comparator<!T> = (T, T) -> int

  /**
   * The standard's consistent comparator, on the elements of `u`: swapping the
   * arguments flips the sign, and "not after" is transitive (so "compares as 0"
   * is an equivalence on them).
   */
  ghost predicate ConsistentOn<T>(u: seq<T>, cmp: Comparator<T>)
  {
    && (forall x, y | x in u && y in u :: cmp(x, y) < 0 <==> cmp(y, x) > 0)
    && (forall x, y, z | x in u && y in u && z in u :: cmp(x, y) <= 0 && cmp(y, z) <= 0 ==> cmp(x, z) <= 0)
  }

  /** Every element of `s` is one of `u`. */
  ghost predicate Within<T>(s: seq<T>, u: seq<T>)
  {
    forall y :: y in s ==> y in u
  }

  /** No element of `s` is placed after one it compares below. */
  ghost predicate SortedBy<T>(s: seq<T>, cmp: Comparator<T>)
  {
    forall i, j :: 0 <= i < j < |s| ==> cmp(s[i], s[j]) <= 0
  }

  /** `x` placed in front of the first element of `s` it does not compare above. */
  function Insert<T>(x: T, s: seq<T>, cmp: Comparator<T>): (r: seq<T>)
    ensures |r| == |s| + 1
    ensures multiset(r) == multiset(s) + multiset{x}
  {
    if s == [] then [x]
    else if cmp(x, s[0]) <= 0 then [x] + s
    else
      assert s == [s[0]] + s[1..];
      [s[0]] + Insert(x, s[1..], cmp)
  }

  /** The sorted copy of `s`: each element inserted into the sorted rest. */
  function SortBy<T>(s: seq<T>, cmp: Comparator<T>): (r: seq<T>)
    ensures |r| == |s|
    ensures multiset(r) == multiset(s)
  {
    if s == [] then []
    else
      assert s == [s[0]] + s[1..];
      Insert(s[0], SortBy(s[1..], cmp), cmp)
  }

  /** A lower bound of `x` and of all of `s` bounds all of `Insert(x, s)`. */
  lemma {:induction false} InsertKeepsLowerBound<T>(y: T, x: T, s: seq<T>, cmp: Comparator<T>)
    requires cmp(y, x) <= 0
    requires forall k :: 0 <= k < |s| ==> cmp(y, s[k]) <= 0
    ensures forall k :: 0 <= k < |s| + 1 ==> cmp(y, Insert(x, s, cmp)[k]) <= 0
  {
    if s != [] && cmp(x, s[0]) > 0 {
      var rest := s[1..];
      assert forall k :: 0 <= k < |rest| ==> cmp(y, rest[k]) <= 0 by {
        forall k | 0 <= k < |rest|
          ensures cmp(y, rest[k]) <= 0
        {
          assert rest[k] == s[k + 1];
        }
      }
      InsertKeepsLowerBound(y, x, rest, cmp);
      var t := Insert(x, rest, cmp);
      var r := Insert(x, s, cmp);
      assert r == [s[0]] + t;
      forall k | 0 <= k < |s| + 1
        ensures cmp(y, r[k]) <= 0
      {
        if k > 0 { assert r[k] == t[k - 1]; }
      }
    }
  }

  /** A lower bound of all of a sorted `s` may be put in front of it. */
  lemma PrependSorted<T>(x: T, s: seq<T>, cmp: Comparator<T>)
    requires SortedBy(s, cmp)
    requires forall k :: 0 <= k < |s| ==> cmp(x, s[k]) <= 0
    ensures SortedBy([x] + s, cmp)
  {
    var r := [x] + s;
    forall i, j | 0 <= i < j < |r|
      ensures cmp(r[i], r[j]) <= 0
    {
      assert r[j] == s[j - 1];
      if i > 0 { assert r[i] == s[i - 1]; }
    }
  }

  /** What is not above the first element of a sorted `s` is a lower bound of all of it. */
  lemma BoundedByFirst<T>(x: T, s: seq<T>, cmp: Comparator<T>, u: seq<T>)
    requires ConsistentOn(u, cmp) && x in u && Within(s, u)
    requires SortedBy(s, cmp) && s != [] && cmp(x, s[0]) <= 0
    ensures forall k :: 0 <= k < |s| ==> cmp(x, s[k]) <= 0
  {
    forall k | 0 < k < |s|
      ensures cmp(x, s[k]) <= 0
    {
      assert cmp(s[0], s[k]) <= 0;
    }
  }

  lemma {:induction false} InsertSorted<T>(x: T, s: seq<T>, cmp: Comparator<T>, u: seq<T>)
    requires ConsistentOn(u, cmp) && x in u && Within(s, u)
    requires SortedBy(s, cmp)
    ensures SortedBy(Insert(x, s, cmp), cmp)
  {
    if s == [] {
    } else if cmp(x, s[0]) <= 0 {
      BoundedByFirst(x, s, cmp, u);
      PrependSorted(x, s, cmp);
    } else {
      var rest := s[1..];
      assert SortedBy(rest, cmp) by {
        forall i, j | 0 <= i < j < |rest|
          ensures cmp(rest[i], rest[j]) <= 0
        {
          assert rest[i] == s[i + 1] && rest[j] == s[j + 1];
        }
      }
      assert Within(rest, u) by {
        forall y | y in rest
          ensures y in u
        {
          var k :| 0 <= k < |rest| && rest[k] == y;
          assert s[k + 1] == y;
        }
      }
      InsertSorted(x, rest, cmp, u);
      assert s[0] in u;
      assert cmp(s[0], x) < 0;
      assert forall k :: 0 <= k < |rest| ==> cmp(s[0], rest[k]) <= 0 by {
        forall k | 0 <= k < |rest|
          ensures cmp(s[0], rest[k]) <= 0
        {
          assert rest[k] == s[k + 1];
        }
      }
      InsertKeepsLowerBound(s[0], x, rest, cmp);
      PrependSorted(s[0], Insert(x, rest, cmp), cmp);
    }
  }

  /** Sorting keeps every element of `s` (membership follows the multiset). */
  lemma SortByWithin<T>(s: seq<T>, cmp: Comparator<T>, u: seq<T>)
    requires Within(s, u)
    ensures Within(SortBy(s, cmp), u)
  {
    forall y | y in SortBy(s, cmp)
      ensures y in u
    {
      assert y in multiset(SortBy(s, cmp));
    }
  }

  /** The tail of `s` lies within whatever `s` lies within. */
  lemma TailWithin<T>(s: seq<T>, u: seq<T>)
    requires s != [] && Within(s, u)
    ensures s[0] in u && Within(s[1..], u)
  {
    forall y | y in s[1..]
      ensures y in u
    {
      var k :| 0 <= k < |s[1..]| && s[1..][k] == y;
      assert s[k + 1] == y;
    }
  }

  lemma {:induction false} SortByIsSortedWithin<T>(s: seq<T>, cmp: Comparator<T>, u: seq<T>)
    requires ConsistentOn(u, cmp) && Within(s, u)
    ensures SortedBy(SortBy(s, cmp), cmp)
  {
    if s != [] {
      TailWithin(s, u);
      SortByIsSortedWithin(s[1..], cmp, u);
      SortByWithin(s[1..], cmp, u);
      InsertSorted(s[0], SortBy(s[1..], cmp), cmp, u);
    }
  }

  /** The sort orders by `cmp` whenever `cmp` is consistent on the elements. */
  lemma SortByIsSorted<T>(s: seq<T>, cmp: Comparator<T>)
    requires ConsistentOn(s, cmp)
    ensures SortedBy(SortBy(s, cmp), cmp)
  {
    SortByIsSortedWithin(s, cmp, s);
  }

  /** The elements of `s` that compare as 0 with `key`, in their order in `s`. */
  function Equivalents<T>(s: seq<T>, key: T, cmp: Comparator<T>): seq<T>
  {
    if s == [] then [] else (if cmp(s[0], key) == 0 then [s[0]] else []) + Equivalents(s[1..], key, cmp)
  }

  lemma EquivalentsCons<T>(x: T, s: seq<T>, key: T, cmp: Comparator<T>)
    ensures Equivalents([x] + s, key, cmp) == (if cmp(x, key) == 0 then [x] else []) + Equivalents(s, key, cmp)
  {
    assert ([x] + s)[1..] == s;
  }

  /** Two elements that compare as 0 with the same key compare as 0 with each other. */
  lemma SameKeyCompareEqual<T>(x: T, y: T, key: T, cmp: Comparator<T>, u: seq<T>)
    requires ConsistentOn(u, cmp) && x in u && y in u && key in u
    requires cmp(x, key) == 0 && cmp(y, key) == 0
    ensures cmp(x, y) == 0
  {
    assert cmp(key, y) == 0;
    assert cmp(key, x) == 0;
  }

  lemma EquivalentsOfInsertStep<T>(x: T, s: seq<T>, key: T, cmp: Comparator<T>)
    requires s != [] && cmp(x, s[0]) > 0
    ensures Equivalents(Insert(x, s, cmp), key, cmp)
         == (if cmp(s[0], key) == 0 then [s[0]] else []) + Equivalents(Insert(x, s[1..], cmp), key, cmp)
  {
    EquivalentsCons(s[0], Insert(x, s[1..], cmp), key, cmp);
  }

  lemma EquivalentsOfFront<T>(x: T, s: seq<T>, key: T, cmp: Comparator<T>)
    requires s != []
    ensures Equivalents([x] + s, key, cmp)
         == (if cmp(x, key) == 0 then [x] else []) + ((if cmp(s[0], key) == 0 then [s[0]] else []) + Equivalents(s[1..], key, cmp))
  {
    EquivalentsCons(x, s, key, cmp);
    EquivalentsCons(s[0], s[1..], key, cmp);
    assert [s[0]] + s[1..] == s;
  }

  lemma SwapFronts<T>(u: seq<T>, v: seq<T>, t: seq<T>)
    requires u == [] || v == []
    ensures u + (v + t) == v + (u + t)
  {
  }

  lemma InsertStableStep<T>(x: T, s: seq<T>, key: T, cmp: Comparator<T>)
    requires s != [] && cmp(x, s[0]) > 0
    requires cmp(x, key) == 0 && cmp(s[0], key) == 0 ==> cmp(x, s[0]) == 0
    requires Equivalents(Insert(x, s[1..], cmp), key, cmp) == Equivalents([x] + s[1..], key, cmp)
    ensures Equivalents(Insert(x, s, cmp), key, cmp) == Equivalents([x] + s, key, cmp)
  {
    var ex := if cmp(x, key) == 0 then [x] else [];
    var e0 := if cmp(s[0], key) == 0 then [s[0]] else [];
    var tail := Equivalents(s[1..], key, cmp);
    EquivalentsOfInsertStep(x, s, key, cmp);
    EquivalentsCons(x, s[1..], key, cmp);
    EquivalentsOfFront(x, s, key, cmp);
    SwapFronts(e0, ex, tail);
  }

  lemma {:induction false} InsertStable<T>(x: T, s: seq<T>, key: T, cmp: Comparator<T>, u: seq<T>)
    requires ConsistentOn(u, cmp) && x in u && key in u && Within(s, u)
    ensures Equivalents(Insert(x, s, cmp), key, cmp) == Equivalents([x] + s, key, cmp)
  {
    if s != [] && cmp(x, s[0]) > 0 {
      TailWithin(s, u);
      InsertStable(x, s[1..], key, cmp, u);
      if cmp(x, key) == 0 && cmp(s[0], key) == 0 {
        SameKeyCompareEqual(x, s[0], key, cmp, u);
      }
      InsertStableStep(x, s, key, cmp);
    }
  }

  lemma {:induction false} SortByIsStableWithin<T>(s: seq<T>, key: T, cmp: Comparator<T>, u: seq<T>)
    requires ConsistentOn(u, cmp) && key in u && Within(s, u)
    ensures Equivalents(SortBy(s, cmp), key, cmp) == Equivalents(s, key, cmp)
  {
    if s != [] {
      TailWithin(s, u);
      SortByIsStableWithin(s[1..], key, cmp, u);
      SortByWithin(s[1..], cmp, u);
      InsertStable(s[0], SortBy(s[1..], cmp), key, cmp, u);
      EquivalentsCons(s[0], SortBy(s[1..], cmp), key, cmp);
      EquivalentsCons(s[0], s[1..], key, cmp);
      assert [s[0]] + s[1..] == s;
    }
  }

  /**
   * The sort is stable: when `cmp` is consistent on the elements, for every
   * element `key` the elements comparing as 0 with it keep their relative order
   * (every class of mutually equivalent elements has such a key).
   */
  lemma SortByIsStable<T>(s: seq<T>, key: T, cmp: Comparator<T>)
    requires ConsistentOn(s, cmp) && key in s
    ensures Equivalents(SortBy(s, cmp), key, cmp) == Equivalents(s, key, cmp)
  {
    SortByIsStableWithin(s, key, cmp, s);
  }
}
