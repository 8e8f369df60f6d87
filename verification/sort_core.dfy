/** Definitions shared by the sorting methods of h2/src/IntSorting.java: Java's
    `int`, ascending order, `System.arraycopy`, the shift-and-insert step every
    insertion sort performs, and `checkOrder`.

    The Java methods sort an `int[]` in place; here an array is a value
    (`seq<int32>`) and a method returns the array's final contents. */
module SortCore {
  import opened Wrappers

  /** A Java `int`. */
  type int32 = x: int | -0x8000_0000 <= x < 0x8000_0000

  /** Ascending order (repeats allowed). */
  predicate Sorted(s: seq<int32>)
  {
    forall p, q | 0 <= p < q < |s| :: s[p] <= s[q]
  }

  /** Each element is no larger than its right neighbour. */
  predicate AdjacentOrdered(s: seq<int32>)
  {
    forall k | 0 <= k < |s| - 1 :: s[k] <= s[k + 1]
  }

  /** `System.arraycopy(src, srcPos, dest, destPos, length)`: the result is
      `dest` with `length` elements of `src` written from `destPos` on. The copy
      behaves as if it went through a temporary array, so an overlapping copy
      within one array reads the old values. */
  function ArrayCopy(src: seq<int32>, srcPos: int, dest: seq<int32>, destPos: int, length: int): (r: seq<int32>)
    requires 0 <= srcPos && 0 <= destPos && 0 <= length
    requires srcPos + length <= |src| && destPos + length <= |dest|
    ensures |r| == |dest|
    ensures forall k | 0 <= k < |r| ::
              r[k] == if destPos <= k < destPos + length then src[srcPos + k - destPos] else dest[k]
  {
    dest[..destPos] + src[srcPos..srcPos + length] + dest[destPos + length..]
  }

  /** The element at `i` taken out and put back at `p <= i`; the elements in
      between move one place to the right. */
  function ShiftInsert(a: seq<int32>, p: nat, i: nat): (r: seq<int32>)
    requires p <= i < |a|
  {
    a[..p] + [a[i]] + a[p..i] + a[i + 1..]
  }

  lemma ShiftInsertAt(a: seq<int32>, p: nat, i: nat)
    requires p <= i < |a|
    ensures |ShiftInsert(a, p, i)| == |a|
    ensures forall k | 0 <= k < |a| ::
              ShiftInsert(a, p, i)[k] == if k < p then a[k] else if k == p then a[i] else if k <= i then a[k - 1] else a[k]
  {
  }

  /** The binary insertion sorts' step: copy `a[p..i)` one place right with
      `System.arraycopy`, then store the saved key at `p`. */
  lemma ArrayCopyShift(a: seq<int32>, p: nat, i: nat)
    requires p <= i < |a|
    ensures ArrayCopy(a, p, a, p + 1, i - p)[p := a[i]] == ShiftInsert(a, p, i)
  {
    assert ArrayCopy(a, p, a, p + 1, i - p) == a[..p + 1] + a[p..i] + a[i + 1..];
    UpdateJoin(a[..p + 1], a[p..i], a[i + 1..], p, a[i]);
    assert a[..p + 1][..p] == a[..p];
  }

  /** Overwriting the last element of `s` in `s + x + y`. */
  lemma UpdateJoin(s: seq<int32>, x: seq<int32>, y: seq<int32>, p: nat, v: int32)
    requires |s| == p + 1
    ensures (s + x + y)[p := v] == s[..p] + [v] + x + y
  {
  }

  /** Inserting `a[i]` into the sorted prefix `a[..i]` at a position `p` with
      no larger element before it and no smaller one after it extends the
      sorted prefix by one and keeps the array's contents. */
  lemma InsertSorted(a: seq<int32>, p: nat, i: nat)
    requires p <= i < |a|
    requires Sorted(a[..i])
    requires forall k | 0 <= k < p :: a[k] <= a[i]
    requires forall k | p <= k < i :: a[i] <= a[k]
    ensures |ShiftInsert(a, p, i)| == |a|
    ensures Sorted(ShiftInsert(a, p, i)[..i + 1])
    ensures ShiftInsert(a, p, i)[i + 1..] == a[i + 1..]
    ensures multiset(ShiftInsert(a, p, i)) == multiset(a)
  {
    ShiftInsertAt(a, p, i);
    ShiftInsertOrdered(a, p, i);
    ShiftInsertPermutes(a, p, i);
    assert ShiftInsert(a, p, i)[i + 1..] == a[i + 1..];
  }

  lemma ShiftInsertOrdered(a: seq<int32>, p: nat, i: nat)
    requires p <= i < |a|
    requires Sorted(a[..i])
    requires forall k | 0 <= k < p :: a[k] <= a[i]
    requires forall k | p <= k < i :: a[i] <= a[k]
    ensures Sorted(ShiftInsert(a, p, i)[..i + 1])
  {
    var r := ShiftInsert(a, p, i)[..i + 1];
    ShiftInsertAt(a, p, i);
    forall x, y | 0 <= x < y < |r| ensures r[x] <= r[y] {
      var x', y' := if x < p then x else if x == p then i else x - 1,
                    if y < p then y else if y == p then i else y - 1;
      assert r[x] == a[x'] && r[y] == a[y'];
      if x' != i && y' != i {
        assert a[..i][x'] <= a[..i][y'];
      }
    }
  }

  lemma ShiftInsertPermutes(a: seq<int32>, p: nat, i: nat)
    requires p <= i < |a|
    ensures multiset(ShiftInsert(a, p, i)) == multiset(a)
  {
    assert a == a[..p] + a[p..i] + [a[i]] + a[i + 1..];
  }

  /** A sequence is sorted exactly when every adjacent pair is in order. */
  lemma {:induction false} AdjacentOrderedIsSorted(s: seq<int32>)
    ensures AdjacentOrdered(s) <==> Sorted(s)
  {
    if AdjacentOrdered(s) {
      forall p, q | 0 <= p < q < |s| ensures s[p] <= s[q] {
        AdjacentChain(s, p, q);
      }
    }
  }

  lemma {:induction false} AdjacentChain(s: seq<int32>, p: nat, q: nat)
    requires AdjacentOrdered(s)
    requires p <= q < |s|
    ensures s[p] <= s[q]
    decreases q - p
  {
    if p < q {
      AdjacentChain(s, p + 1, q);
    }
  }

  /** The two neighbours `checkOrder` reports: an index and both values. */
  datatype OrderError = NotOrdered(index: nat, left: int32, right: int32)

  /** `checkOrder`: scan the adjacent pairs from the left and fail on the first
      pair out of order. */
  method CheckOrder(a: seq<int32>) returns (r: Outcome<OrderError>)
    ensures r.Pass? <==> Sorted(a)
    ensures r.Fail? ==>
              && r.error.index < |a| - 1
              && r.error.left == a[r.error.index] && r.error.right == a[r.error.index + 1]
              && a[r.error.index] > a[r.error.index + 1]
              && Sorted(a[..r.error.index + 1])
  {
    AdjacentOrderedIsSorted(a);
    if |a| < 2 {
      return Pass;
    }
    var i := 0;
    while i < |a| - 1
      invariant 0 <= i <= |a| - 1
      invariant forall k | 0 <= k < i :: a[k] <= a[k + 1]
    {
      if a[i] > a[i + 1] {
        AdjacentOrderedIsSorted(a[..i + 1]);
        return Fail(NotOrdered(i, a[i], a[i + 1]));
      }
      i := i + 1;
    }
    return Pass;
  }
}
