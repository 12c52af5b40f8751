/**
 * Clients of CollectionValueObject: the scenario of the repository's own test,
 * with its element type, and the push/pop round trip.
 */
module Scenario {
  import opened Wrappers
  import opened Collections
  import NativeArray

  /** The test's element: a title and some data. */
  datatype TestCollection = TestCollection(title: string, data: string)

  /** The test's `compare`: `x.compare(other)` holds when the titles agree. */
  function SameTitle(x: TestCollection, other: TestCollection): bool
  {
    other.title == x.title
  }

  /** Pushing `x` and popping returns `x` and gives back the previous contents. */
  method PushThenPop<T(!new)>(c: CollectionValueObject<T>, x: T) returns (r: Option<T>)
    modifies c
    ensures r == Option.Some(x) && c.items == old(c.items)
  {
    var n := c.Push([x]);
    r := c.Pop();
  }

  /**
   * The test: two pushes, a `some` by `compare`, then `remove(x => x.compare(test2))`
   * and a third push. `remove` keeps the matching element, so `test2` is the one
   * left; `includes`, which the test uses to inspect the result, is not modelled.
   */
  method TestScenario() returns (matched: bool, afterRemove: seq<TestCollection>, finalLength: nat)
    ensures matched
    ensures afterRemove == [TestCollection("test2", "test2")]
    ensures finalLength == 2
  {
    var test2 := TestCollection("test2", "test2");
    var test3 := TestCollection("test3", "test3");
    var test1 := TestCollection("test1", "test1");
    var collection := new CollectionValueObject([], SameTitle);
    var n1 := collection.Push([test1]);
    var n2 := collection.Push([test2]);
    assert collection.items == [test1, test2];
    assert SameTitle(collection.items[0], test1);
    matched := collection.Some((x, i, s) => SameTitle(x, test1));
    var keep: NativeArray.Callback<TestCollection, bool> := (x, i, s) => SameTitle(x, test2);
    ghost var before := collection.items;
    assert test1.title != test2.title by { assert test1.title[4] != test2.title[4]; }
    assert NativeArray.FilterFrom(before, keep, 2) == [];
    assert NativeArray.FilterFrom(before, keep, 1) == [test2];
    assert NativeArray.FilterFrom(before, keep, 0) == [test2];
    collection.Remove(keep);
    afterRemove := collection.items;
    finalLength := collection.Push([test3]);
  }
}
