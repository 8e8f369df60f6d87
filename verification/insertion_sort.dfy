/** The insertion sorts of h2/src/IntSorting.java: the plain one that shifts
    while scanning, and three binary variants that find the insertion point by
    binary search and shift with `System.arraycopy`. */
module InsertionSorts {
  import opened SortCore

  /** `insertionSort`: for each `i`, shift the larger elements of the sorted
      prefix one place right, scanning from `i - 1` down, and drop the saved
      value into the gap. */
  method InsertionSort(a0: seq<int32>) returns (a: seq<int32>)
    ensures |a| == |a0|
    ensures Sorted(a)
    ensures multiset(a) == multiset(a0)
    ensures |a0| < 2 ==> a == a0
  {
    a := a0;
    if |a| < 2 {
      return;
    }
    var i := 1;
    while i < |a|
      invariant 1 <= i <= |a| == |a0|
      invariant Sorted(a[..i])
      invariant multiset(a) == multiset(a0)
    {
      ghost var a1 := a;
      var p;
      a, p := ShiftLarger(a, i);
      forall k | 0 <= k < p ensures a1[k] <= a1[i] {
        if k < p - 1 {
          assert a1[..i][k] <= a1[..i][p - 1];
        }
      }
      InsertSorted(a1, p, i);
      i := i + 1;
    }
    assert a[..i] == a;
  }

  /** The inner loop of `insertionSort`: from `i - 1` down, move each element
      greater than the saved `a[i]` one place right, stop at the first that is
      not greater, and store the saved value in the gap. */
  method ShiftLarger(a0: seq<int32>, i: nat) returns (a: seq<int32>, p: nat)
    requires i < |a0|
    ensures p <= i
    ensures a == ShiftInsert(a0, p, i)
    ensures p > 0 ==> a0[p - 1] <= a0[i]
    ensures forall k | p <= k < i :: a0[i] < a0[k]
  {
    a := a0;
    var b := a[i];
    var j := i - 1;
    while j >= 0 && a[j] > b
      invariant -1 <= j <= i - 1
      invariant |a| == |a0|
      invariant forall k | 0 <= k <= j :: a[k] == a0[k]
      invariant forall k | j + 2 <= k <= i :: a[k] == a0[k - 1]
      invariant forall k | i < k < |a| :: a[k] == a0[k]
      invariant forall k | j < k < i :: a0[k] > b
    {
      a := a[j + 1 := a[j]];
      j := j - 1;
    }
    a := a[j + 1 := b];
    p := j + 1;
    ShiftedIsInsert(a0, a, p, i);
  }

  /** An array that holds `a0[i]` at `p`, `a0[p..i)` one place to the right,
      and `a0` elsewhere is `a0` with `a0[i]` shifted in at `p`. */
  lemma ShiftedIsInsert(a0: seq<int32>, a: seq<int32>, p: nat, i: nat)
    requires p <= i < |a0| == |a|
    requires forall k | 0 <= k < p :: a[k] == a0[k]
    requires a[p] == a0[i]
    requires forall k | p < k <= i :: a[k] == a0[k - 1]
    requires forall k | i < k < |a| :: a[k] == a0[k]
    ensures a == ShiftInsert(a0, p, i)
  {
    ShiftInsertAt(a0, p, i);
  }

  /** The search inlined in `binaryInsertionSort`: the first index of `a[..i]`
      holding a value greater than `key` (`i` when there is none). */
  method UpperBound(a: seq<int32>, key: int32, i: nat) returns (left: nat)
    requires i <= |a|
    ensures left <= i
    ensures Sorted(a[..i]) ==>
              (forall k | 0 <= k < left :: a[k] <= key) && (forall k | left <= k < i :: key < a[k])
  {
    left := 0;
    var right := i - 1;
    while left <= right
      invariant 0 <= left <= right + 1 <= i
      invariant Sorted(a[..i]) ==> forall k | 0 <= k < left :: a[k] <= key
      invariant Sorted(a[..i]) ==> forall k | right < k < i :: key < a[k]
    {
      var mid := (left + right) / 2;
      if a[mid] <= key {
        left := mid + 1;
      } else {
        right := mid - 1;
      }
      if Sorted(a[..i]) {
        forall k | 0 <= k < i ensures k <= mid ==> a[k] <= a[mid] {
          if k < mid {
            assert a[..i][k] <= a[..i][mid];
          }
        }
        forall k | 0 <= k < i ensures mid <= k ==> a[mid] <= a[k] {
          if mid < k {
            assert a[..i][mid] <= a[..i][k];
          }
        }
      }
    }
  }

  /** `binaryInsertionSort`: insert each `a[i]` after the last element of the
      sorted prefix that is not greater than it. */
  method BinaryInsertionSort(a0: seq<int32>) returns (a: seq<int32>)
    ensures |a| == |a0|
    ensures Sorted(a)
    ensures multiset(a) == multiset(a0)
    ensures |a0| < 2 ==> a == a0
  {
    a := a0;
    if |a| < 2 {
      return;
    }
    var i := 1;
    while i < |a|
      invariant 1 <= i <= |a| == |a0|
      invariant Sorted(a[..i])
      invariant multiset(a) == multiset(a0)
    {
      var key := a[i];
      var left := UpperBound(a, key, i);
      ghost var a1 := a;
      a := ArrayCopy(a, left, a, left + 1, i - left);
      a := a[left := key];
      ArrayCopyShift(a1, left, i);
      InsertSorted(a1, left, i);
      i := i + 1;
    }
    assert a[..i] == a;
  }

  /** `binarySearch(a, key, low, high)`: the first index in `[low, high]`
      holding a value not less than `key`, or `high + 1` when there is none;
      `low` itself when the range is empty. */
  method BinarySearch(a: seq<int32>, key: int32, low: int, high: int) returns (p: int)
    requires 0 <= low && high < |a|
    ensures low <= high + 1 ==> low <= p <= high + 1
    ensures low > high ==> p == low
    ensures low <= high + 1 && Sorted(a[low..high + 1]) ==>
              (forall k | low <= k < p :: a[k] < key) && (forall k | p <= k <= high :: key <= a[k])
  {
    if low > high {
      return low;
    }
    ghost var lo0, hi0 := low, high;
    var lo, hi := low, high;
    while lo <= hi
      invariant lo0 <= lo <= hi + 1 <= hi0 + 1
      invariant Sorted(a[lo0..hi0 + 1]) ==> forall k | lo0 <= k < lo :: a[k] < key
      invariant Sorted(a[lo0..hi0 + 1]) ==> forall k | hi < k <= hi0 :: key <= a[k]
    {
      var mid := (lo + hi) / 2;
      if a[mid] < key {
        lo := mid + 1;
      } else {
        hi := mid - 1;
      }
      if Sorted(a[lo0..hi0 + 1]) {
        forall k | lo0 <= k <= hi0 ensures k <= mid ==> a[k] <= a[mid] {
          if k < mid {
            assert a[lo0..hi0 + 1][k - lo0] <= a[lo0..hi0 + 1][mid - lo0];
          }
        }
        forall k | lo0 <= k <= hi0 ensures mid <= k ==> a[mid] <= a[k] {
          if mid < k {
            assert a[lo0..hi0 + 1][mid - lo0] <= a[lo0..hi0 + 1][k - lo0];
          }
        }
      }
    }
    p := lo;
  }

  /** `binaryInsertionSort1`: insert each `a[i]` before the first element of
      the sorted prefix that is not less than it. */
  method BinaryInsertionSort1(a0: seq<int32>) returns (a: seq<int32>)
    ensures |a| == |a0|
    ensures Sorted(a)
    ensures multiset(a) == multiset(a0)
    ensures |a0| < 2 ==> a == a0
  {
    a := a0;
    var n := |a|;
    if n < 2 {
      return;
    }
    var i := 1;
    while i < n
      invariant 1 <= i <= n == |a| == |a0|
      invariant Sorted(a[..i])
      invariant multiset(a) == multiset(a0)
    {
      var key := a[i];
      assert a[0..i - 1 + 1] == a[..i];
      var pos := BinarySearch(a, key, 0, i - 1);
      ghost var a1 := a;
      a := ArrayCopy(a, pos, a, pos + 1, i - pos);
      a := a[pos := key];
      ArrayCopyShift(a1, pos, i);
      InsertSorted(a1, pos, i);
      i := i + 1;
    }
    assert a[..i] == a;
  }

  /** `java.util.Arrays.binarySearch(a, fromIndex, toIndex, key)` as the JDK
      implements it: an index holding `key` when the search meets one, and
      otherwise `-(insertion point) - 1`, the insertion point being the first
      index of the range whose value is greater than `key`. */
  method JavaBinarySearch(a: seq<int32>, fromIndex: int, toIndex: int, key: int32) returns (r: int)
    requires 0 <= fromIndex <= toIndex <= |a|
    ensures r >= 0 ==> fromIndex <= r < toIndex && a[r] == key
    ensures r < 0 ==> fromIndex <= -r - 1 <= toIndex
    ensures r < 0 && Sorted(a[fromIndex..toIndex]) ==>
              && (forall k | fromIndex <= k < -r - 1 :: a[k] < key)
              && (forall k | -r - 1 <= k < toIndex :: key < a[k])
  {
    var low, high := fromIndex, toIndex - 1;
    while low <= high
      invariant fromIndex <= low <= high + 1 <= toIndex
      invariant Sorted(a[fromIndex..toIndex]) ==> forall k | fromIndex <= k < low :: a[k] < key
      invariant Sorted(a[fromIndex..toIndex]) ==> forall k | high < k < toIndex :: key < a[k]
    {
      var mid := (low + high) / 2;
      var midVal := a[mid];
      if Sorted(a[fromIndex..toIndex]) {
        forall k | fromIndex <= k < toIndex ensures k <= mid ==> a[k] <= a[mid] {
          if k < mid {
            assert a[fromIndex..toIndex][k - fromIndex] <= a[fromIndex..toIndex][mid - fromIndex];
          }
        }
        forall k | fromIndex <= k < toIndex ensures mid <= k ==> a[mid] <= a[k] {
          if mid < k {
            assert a[fromIndex..toIndex][mid - fromIndex] <= a[fromIndex..toIndex][k - fromIndex];
          }
        }
      }
      if midVal < key {
        low := mid + 1;
      } else if midVal > key {
        high := mid - 1;
      } else {
        return mid;
      }
    }
    return -(low + 1);
  }

  /** `binaryInsertionSort2`: the insertion point from `Arrays.binarySearch`
      over `a[0..i)`, decoded from `-(point) - 1` when the key is absent, and
      the found index itself when it is present. */
  method BinaryInsertionSort2(a0: seq<int32>) returns (a: seq<int32>)
    ensures |a| == |a0|
    ensures Sorted(a)
    ensures multiset(a) == multiset(a0)
    ensures |a0| < 2 ==> a == a0
  {
    a := a0;
    var n := |a|;
    if n < 2 {
      return;
    }
    var i := 1;
    while i < n
      invariant 1 <= i <= n == |a| == |a0|
      invariant Sorted(a[..i])
      invariant multiset(a) == multiset(a0)
    {
      var key := a[i];
      assert a[0..i] == a[..i];
      var pos := JavaBinarySearch(a, 0, i, key);
      if pos < 0 {
        pos := -pos - 1;
      } else {
        forall k | 0 <= k < i ensures (k < pos ==> a[k] <= key) && (pos <= k ==> key <= a[k]) {
          if k < pos {
            assert a[..i][k] <= a[..i][pos];
          } else if pos < k {
            assert a[..i][pos] <= a[..i][k];
          }
        }
      }
      ghost var a1 := a;
      a := ArrayCopy(a, pos, a, pos + 1, i - pos);
      a := a[pos := key];
      ArrayCopyShift(a1, pos, i);
      InsertSorted(a1, pos, i);
      i := i + 1;
    }
    assert a[..i] == a;
  }
}
