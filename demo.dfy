/**
  The program's client of the search: it sorts the fixed array
  `[334, 7, 23, 32, 512, 62, 342]` in place and searches the sorted array
  for `32`. The two console reports are not modelled; the method returns
  what they would show.
 */
module Demo {

  import opened Wrappers
  import opened SortedSlices
  import opened BinarySearch

  /** The array the client starts from. */
  const Input: seq<int> := [334, 7, 23, 32, 512, 62, 342]

  /** The ascending arrangement of `Input`. */
  const Expected: seq<int> := [7, 23, 32, 62, 334, 342, 512]

  /** `Expected` is in ascending order. */
  lemma ExpectedIsSorted()
    ensures Sorted(Expected)
  {
  }

  /** `Expected` holds exactly the elements of `Input`. */
  lemma ExpectedPermutesInput()
    ensures multiset(Input) == multiset(Expected)
  {
    assert multiset(Input) == multiset{334, 7, 23, 32, 512, 62, 342};
    assert multiset{334, 7, 23, 32, 512, 62, 342} == multiset{7, 23, 32, 62, 334, 342, 512};
    assert multiset{7, 23, 32, 62, 334, 342, 512} == multiset(Expected);
  }

  /** Sorts the fixed array, then finds `32` at index 2 of the sorted array. */
  method SortThenSearch() returns (sorted: seq<int>, found: Option<nat>)
    ensures sorted == [7, 23, 32, 62, 334, 342, 512]
    ensures found == Some(2)
  {
    var values := new int[7] [334, 7, 23, 32, 512, 62, 342];
    assert values[..] == Input;
    SortInPlace(values);
    sorted := values[..];
    ExpectedIsSorted();
    ExpectedPermutesInput();
    SortedPermutationUnique(sorted, Expected);
    var target := 32;
    found := Search(sorted, target);
    assert sorted[2] == target;
  }

}
