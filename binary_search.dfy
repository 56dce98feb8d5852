/**
  Binary search over a slice of integers: the window `[left, right)` of
  indices still to be inspected is halved until the target is found at its
  midpoint or the window is empty.
 */
module BinarySearch {

  import opened Wrappers
  import opened SortedSlices

  /**
    The midpoint of a non-empty window, computed as `left + (right - left) / 2`
    rather than `(left + right) / 2`: it lies inside the window, and no
    intermediate value of the computation exceeds `right`, so it fits in any
    unsigned width that `right` fits in.
   */
  function Midpoint(left: nat, right: nat): (mid: nat)
    requires left < right
    ensures left <= mid < right
    ensures right - left <= right && (right - left) / 2 <= right && mid <= right
    ensures mid - left <= right - mid <= mid - left + 1
  {
    left + (right - left) / 2
  }

  /**
    Searches `arr` for `target`. A `Some` result is an index holding `target`
    (any one of them when it occurs more than once). On a sorted slice, `None`
    means that `target` occurs nowhere in it.
   */
  method Search(arr: seq<int>, target: int) returns (r: Option<nat>)
    ensures r.Some? ==> r.value < |arr| && arr[r.value] == target
    ensures Sorted(arr) && r.None? ==> target !in arr
    ensures Sorted(arr) ==> (r.Some? <==> target in arr)
    ensures |arr| == 0 ==> r == None
  {
    var left: nat, right: nat := 0, |arr|;
    while left < right
      invariant left <= right <= |arr|
      invariant Sorted(arr) ==> forall k :: 0 <= k < left ==> arr[k] < target
      invariant Sorted(arr) ==> forall k :: right <= k < |arr| ==> target < arr[k]
      decreases right - left
    {
      var mid := Midpoint(left, right);
      if arr[mid] == target {
        return Some(mid);
      } else if arr[mid] < target {
        left := mid + 1;
      } else {
        right := mid;
      }
    }
    return None;
  }

}
