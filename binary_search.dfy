/** The standalone binary search over a list of integers. */
module BinarySearch {

  predicate Sorted(arr: seq<int>) {
    forall i, j :: 0 <= i < j < |arr| ==> arr[i] <= arr[j]
  }

  /**
   * `binary_search(arr, target)`: the index of target, or -1. Any index it
   * returns holds target, sorted or not; on a sorted list it returns -1
   * only when target is absent.
   */
  method Search(arr: seq<int>, target: int) returns (r: int)
    ensures r == -1 || (0 <= r < |arr| && arr[r] == target)
    ensures Sorted(arr) && r == -1 ==> target !in arr
    ensures Sorted(arr) && target in arr ==> r != -1
    ensures arr == [] ==> r == -1
  {
    var low := 0;
    var high := |arr| - 1;
    while low <= high
      invariant 0 <= low <= high + 1 <= |arr|
      invariant Sorted(arr) ==> forall i :: 0 <= i < |arr| && arr[i] == target ==> low <= i <= high
      decreases high - low
    {
      var mid := (low + high) / 2;
      if arr[mid] == target {
        return mid;
      } else if arr[mid] < target {
        low := mid + 1;
      } else {
        high := mid - 1;
      }
    }
    return -1;
  }

  /** The example list: 23 sits at index 5 and 42 is absent. */
  method ExampleSearches() returns (found: int, missing: int)
    ensures found == 5 && missing == -1
  {
    var sortedNumbers := [2, 5, 8, 12, 16, 23, 38, 56, 72, 91];
    assert Sorted(sortedNumbers);
    assert sortedNumbers[5] == 23;
    found := Search(sortedNumbers, 23);
    missing := Search(sortedNumbers, 42);
  }
}
