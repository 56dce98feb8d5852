# Binary search over a sorted slice, with its sort-then-search client

The program `src/main.rs` holds two routines. `binary_search` looks for a
target value in a slice of integers. It keeps a half-open window
`[left, right)` of indices still to inspect, starting with the whole slice.
It compares the element at the window's midpoint with the target, and then
returns that index, keeps the right half, or keeps the left half. When the
window is empty it returns `None`. `main` sorts the fixed array
`[334, 7, 23, 32, 512, 62, 342]` in place, searches it for `32`, and prints
the outcome.

The Dafny model has four modules:

- `Wrappers` (`wrappers.dfy`): the `Option` result type.
- `SortedSlices` (`sorted_slices.dfy`): the `Sorted` predicate, and
  `SortInPlace`, which stands for the standard library's slice sort. It
  modifies an `array<int>` in place, and its postcondition (ascending, same
  multiset of elements) is all that callers use. Its body writes back a
  functional insertion sort, because every member here needs a body. The
  module also proves that a sorted permutation is unique.
- `BinarySearch` (`binary_search.dfy`): `Midpoint` and the method `Search`.
  `Search` has the source's `while` loop over `left` and `right`, its early
  return and its three branches. Its loop invariants are the window bounds and,
  for sorted input, "everything left of `left` is smaller than the target and
  everything from `right` on is larger". The loop's `decreases right - left`
  is the termination argument.
- `Demo` (`demo.dfy`): `SortThenSearch`, the body of `main` without its
  console output. It returns the sorted array and the search result that
  `main` prints.

Values are unbounded `int`s and indices are `nat`s. The slice is a
`seq<int>`, because `binary_search` only borrows it immutably. The client's
array is an `array<int>`, because `main` sorts it in place.

## Model

| member | source | states |
|---|---|---|
| BinarySearch.Midpoint | src/main.rs:6 | for a non-empty window, `left <= mid < right`, so `arr[mid]` is in bounds; no intermediate value of `left + (right - left) / 2` exceeds `right`, so the computation cannot overflow; the two halves differ in size by at most one |
| BinarySearch.Search | src/main.rs:1-18 | a `Some(i)` result has `i < |arr|` and `arr[i] == target`; on sorted input `None` means `target` is absent, so on sorted input the result is `Some` exactly when `target` occurs; an empty slice gives `None`; the loop keeps `0 <= left <= right <= |arr|` and, for sorted input, "all before `left` are `< target`, all from `right` on are `> target`", and it terminates because `right - left` shrinks |
| SortedSlices.Insert | src/main.rs:23 | inserting into a sorted sequence gives a sorted sequence whose multiset is the old one plus the new element |
| SortedSlices.InsertionSort | src/main.rs:23 | the result is sorted and is a permutation of the input |
| SortedSlices.SortInPlace | src/main.rs:23 | after the in-place sort, the array is ascending and holds the same multiset of elements as before |
| SortedSlices.SortedPermutationUnique | src/main.rs:23 | two sorted sequences with the same multiset of elements are equal, so the sort's postcondition fixes the sorted array completely |
| Demo.ExpectedPermutesInput | src/main.rs:21 | the fixed array and `[7, 23, 32, 62, 334, 342, 512]` hold the same elements |
| Demo.SortThenSearch | src/main.rs:20-32 | after sorting `[334, 7, 23, 32, 512, 62, 342]`, the array is `[7, 23, 32, 62, 334, 342, 512]` and searching it for `32` returns `Some(2)` |

## Left out

- The two `println!` reports in `main` (src/main.rs:25, src/main.rs:30-31) are console I/O. `SortThenSearch` returns the values they would print.
- The standard library's sorting algorithm is not part of this model. `SortInPlace` promises only the standard sort's contract: ascending order and the same elements. Its insertion-sort body stands in for the real algorithm.
- Search: when `target` occurs more than once, the result names some matching index. The source does not promise the first or the last one, so neither is specified.
- The machine widths `i32` and `usize` are not modelled: values are `int` and indices are `nat`. `Midpoint` states instead that no intermediate value exceeds `right`, the bound that makes the `usize` computation safe.
- Search: on unsorted input only the `Some` direction is specified. The source makes no promise about `None` there, and a present target can be missed.
