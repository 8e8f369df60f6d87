/** `quickSort` of h2/src/IntSorting.java: Hoare partitioning around the middle
    element of `a[l..r)`, then recursion on the two parts. */
module QuickSorting {
  import opened Wrappers
  import opened SortCore

  /** The exceptions `quickSort` can end in. */
  datatype SortError =
    | IllegalArgument     // the explicit parameter check
    | IndexOutOfBounds    // `r` beyond the array: the scan reads `array[r - 1]`

  /** Every element of `s` is at most `x`. */
  predicate AllAtMost(s: seq<int32>, x: int)
  {
    forall k | 0 <= k < |s| :: s[k] <= x
  }

  /** Every element of `s` is at least `x`. */
  predicate AllAtLeast(s: seq<int32>, x: int)
  {
    forall k | 0 <= k < |s| :: x <= s[k]
  }

  /** Exchange the elements at `i` and `j`. */
  function Swap(a: seq<int32>, i: nat, j: nat): (r: seq<int32>)
    requires i < |a| && j < |a|
    ensures |r| == |a| && r[i] == a[j] && r[j] == a[i]
    ensures forall k | 0 <= k < |a| && k != i && k != j :: r[k] == a[k]
  {
    a[i := a[j]][j := a[i]]
  }

  /** `a` and `a0` agree outside `[l, r)`. */
  predicate SameOutside(a: seq<int32>, a0: seq<int32>, l: int, r: int)
  {
    |a| == |a0| && forall k | 0 <= k < |a| && !(l <= k < r) :: a[k] == a0[k]
  }

  /** `while (array[i] < x) i++;` — stops at the latest at the sentinel `si`,
      an index known to hold a value not less than `x`. */
  method ScanUp(a: seq<int32>, i0: nat, ghost si: nat, x: int32) returns (i: nat)
    requires i0 <= si < |a| && x <= a[si]
    ensures i0 <= i <= si && x <= a[i]
    ensures forall k | i0 <= k < i :: a[k] < x
  {
    i := i0;
    while a[i] < x
      invariant i0 <= i <= si
      invariant forall k | i0 <= k < i :: a[k] < x
      decreases si - i
    {
      i := i + 1;
    }
  }

  /** `while (x < array[j]) j--;` — stops at the latest at the sentinel `sj`,
      an index known to hold a value not greater than `x`. */
  method ScanDown(a: seq<int32>, j0: nat, ghost sj: nat, x: int32) returns (j: nat)
    requires sj <= j0 < |a| && a[sj] <= x
    ensures sj <= j <= j0 && a[j] <= x
    ensures forall k | j < k <= j0 :: x < a[k]
  {
    j := j0;
    while x < a[j]
      invariant sj <= j <= j0
      invariant forall k | j < k <= j0 :: x < a[k]
      decreases j - sj
    {
      j := j - 1;
    }
  }

  /** The partition loop of `quickSort`: `x` is the middle element
      `array[(l + r - 1) / 2]`; `i` runs up over elements less than `x`, `j`
      runs down over elements greater than `x`, the two found are exchanged,
      and this repeats while `i < j`. Everything left of the final `i` is at
      most `x`, everything right of the final `j` is at least `x`, and both
      parts are strictly shorter than the range. */
  method Partition(a0: seq<int32>, l: nat, r: nat) returns (a: seq<int32>, i: int, j: int, x: int32)
    requires l + 2 <= r <= |a0|
    ensures SameOutside(a, a0, l, r)
    ensures multiset(a[l..r]) == multiset(a0[l..r])
    ensures x == a0[(l + r - 1) / 2]
    ensures l < i <= r && l - 1 <= j < r - 1 && j <= i
    ensures forall k | l <= k < i :: a[k] <= x
    ensures forall k | j < k < r :: x <= a[k]
  {
    a := a0;
    i, j := l, r - 1;
    var mid := (i + j) / 2;
    x := a[mid];
    ghost var si, sj := mid, mid;
    ghost var swapped := false;
    var more := true;
    while more
      invariant SameOutside(a, a0, l, r)
      invariant multiset(a[l..r]) == multiset(a0[l..r])
      invariant l <= i <= r && l - 1 <= j <= r - 1
      invariant forall k | l <= k < i :: a[k] <= x
      invariant forall k | j < k < r :: x <= a[k]
      invariant more ==> i < j && i <= si < r && x <= a[si] && l <= sj <= j && a[sj] <= x
      invariant !swapped ==> more && si == sj
      invariant swapped ==> l < i && j < r - 1
      invariant !more ==> j <= i
      decreases if more then j - i + 1 else 0
    {
      i := ScanUp(a, i, si, x);
      j := ScanDown(a, j, sj, x);
      if i <= j {
        SwapStep(a, a0, i, j, l, r, x);
        a := Swap(a, i, j);
        i := i + 1;
        j := j - 1;
        swapped := true;
      }
      more := i < j;
      if more {
        si, sj := j + 1, i - 1;
      }
    }
  }

  /** The exchange keeps the frame, the range's contents, and puts a value at
      most `x` at `i` and one at least `x` at `j`. */
  lemma SwapStep(a: seq<int32>, a0: seq<int32>, i: nat, j: nat, l: nat, r: nat, x: int32)
    requires l <= i <= j < r <= |a|
    requires SameOutside(a, a0, l, r) && multiset(a[l..r]) == multiset(a0[l..r])
    requires x <= a[i] && a[j] <= x
    ensures SameOutside(Swap(a, i, j), a0, l, r)
    ensures multiset(Swap(a, i, j)[l..r]) == multiset(a0[l..r])
  {
    var b := Swap(a, i, j);
    assert b[l..r] == a[l..r][i - l := a[j]][j - l := a[i]];
  }

  /** Sorted pieces whose elements are in order across the cut join into a
      sorted sequence. */
  lemma SortedJoin(s: seq<int32>, t: seq<int32>, y: int)
    requires Sorted(s) && Sorted(t)
    requires AllAtMost(s, y) && AllAtLeast(t, y)
    ensures Sorted(s + t)
  {
  }

  /** A bound on every element carries over to any rearrangement. */
  lemma AtMostPermuted(s: seq<int32>, t: seq<int32>, x: int)
    requires multiset(s) == multiset(t) && AllAtMost(t, x)
    ensures AllAtMost(s, x)
  {
    forall k | 0 <= k < |s| ensures s[k] <= x {
      assert s[k] in multiset(t);
      var m :| 0 <= m < |t| && t[m] == s[k];
    }
  }

  lemma AtLeastPermuted(s: seq<int32>, t: seq<int32>, x: int)
    requires multiset(s) == multiset(t) && AllAtLeast(t, x)
    ensures AllAtLeast(s, x)
  {
    forall k | 0 <= k < |s| ensures x <= s[k] {
      assert s[k] in multiset(t);
      var m :| 0 <= m < |t| && t[m] == s[k];
    }
  }

  /** When the left part reaches one element past the block known to be at most
      `x`, sorting it still leaves every element but its last at most `x`: the
      last is then the block's maximum or the extra element. */
  lemma {:induction false} SortedAllButLast(s: seq<int32>, t: seq<int32>, x: int)
    requires |t| >= 1 && multiset(s) == multiset(t) && Sorted(s)
    requires AllAtMost(t[..|t| - 1], x)
    ensures AllAtMost(s[..|s| - 1], x)
  {
    var n := |s| - 1;
    assert |s| == |t| by {
      assert |s| == |multiset(s)|;
    }
    var top, extra := s[n], t[n];
    assert t == t[..n] + [extra];
    assert s == s[..n] + [top];
    assert multiset(t) == multiset(t[..n]) + multiset{extra};
    assert multiset(s) == multiset(s[..n]) + multiset{top};
    if top == extra {
      assert multiset(s[..n]) == multiset(s) - multiset{top};
      assert multiset(t[..n]) == multiset(t) - multiset{extra};
      AtMostPermuted(s[..n], t[..n], x);
    } else {
      assert top in multiset(t) by {
        assert top in multiset(s);
      }
      assert top in multiset(t[..n]);
      var m :| 0 <= m < n && t[..n][m] == top;
      forall k | 0 <= k < n ensures s[..n][k] <= x {
        assert s[k] <= s[n];
      }
    }
  }

  /** Segment view of one quicksort step, with the cut strictly between the
      parts (`J < I`): `B` is the partitioned segment, `Ls` the sorted left
      part `B[..J + 1]`, and `C` the segment after the left recursion. Then
      `C[..I]` is sorted, at most `x`, and `C[I..]` is at least `x`. */
  lemma CutBetween(B: seq<int32>, Ls: seq<int32>, C: seq<int32>, I: nat, J: int, x: int32)
    requires 0 <= J + 1 <= I <= |B|
    requires AllAtMost(B[..I], x) && AllAtLeast(B[J + 1..], x)
    requires |Ls| == J + 1 && multiset(Ls) == multiset(B[..J + 1]) && Sorted(Ls)
    requires C == Ls + B[J + 1..]
    ensures Sorted(C[..I]) && AllAtMost(C[..I], x) && AllAtLeast(C[I..], x)
  {
    var pre := B[..J + 1];
    assert AllAtMost(pre, x) by {
      forall k | 0 <= k < |pre| ensures pre[k] <= x {
        assert pre[k] == B[..I][k];
      }
    }
    AtMostPermuted(Ls, B[..J + 1], x);
    var mid := B[J + 1..I];
    assert forall k | 0 <= k < |mid| :: mid[k] == x by {
      forall k | 0 <= k < |mid| ensures mid[k] == x {
        assert mid[k] == B[..I][J + 1 + k] && mid[k] == B[J + 1..][k];
      }
    }
    assert C[..I] == Ls + mid;
    SortedJoin(Ls, mid, x);
    forall k | 0 <= k < |C| - I ensures x <= C[I..][k] {
      assert C[I..][k] == B[J + 1..][I - (J + 1) + k];
    }
  }

  /** The same with the parts meeting on one index (`J == I`): the left
      recursion also sorted `B[I]`, so the bound at the cut is the smaller of
      `x` and the new `C[I]`. */
  lemma CutOn(B: seq<int32>, Ls: seq<int32>, C: seq<int32>, I: nat, x: int32)
    requires I + 1 <= |B|
    requires AllAtMost(B[..I], x) && AllAtLeast(B[I + 1..], x)
    requires |Ls| == I + 1 && multiset(Ls) == multiset(B[..I + 1]) && Sorted(Ls)
    requires C == Ls + B[I + 1..]
    ensures Sorted(C[..I]) && AllAtMost(C[..I], Min(x, Ls[I])) && AllAtLeast(C[I..], Min(x, Ls[I]))
  {
    assert B[..I + 1][..I] == B[..I];
    SortedAllButLast(Ls, B[..I + 1], x);
    assert C[..I] == Ls[..I];
    forall k | 0 <= k < I ensures C[..I][k] <= Min(x, Ls[I]) {
      assert C[..I][k] == Ls[..I][k];
    }
    forall k | 0 <= k < |C| - I ensures Min(x, Ls[I]) <= C[I..][k] {
      if k > 0 {
        assert C[I..][k] == B[I + 1..][k - 1];
      }
    }
  }

  function Min(x: int, y: int): int
  {
    if x <= y then x else y
  }

  /** One quicksort step on the segment: the left part sorted in place, then
      the right part from `I` on replaced by its sorted rearrangement, gives a
      sorted rearrangement of the whole segment. */
  lemma SegmentSorted(B: seq<int32>, Ls: seq<int32>, C: seq<int32>, Rs: seq<int32>, D: seq<int32>, I: nat, J: int, x: int32)
    requires 0 <= J + 1 && J <= I <= |B| && J + 1 <= |B|
    requires AllAtMost(B[..I], x) && AllAtLeast(B[J + 1..], x)
    requires |Ls| == J + 1 && multiset(Ls) == multiset(B[..J + 1]) && Sorted(Ls)
    requires C == Ls + B[J + 1..]
    requires multiset(Rs) == multiset(C[I..]) && Sorted(Rs)
    requires D == C[..I] + Rs
    ensures Sorted(D)
    ensures multiset(D) == multiset(B)
  {
    var y: int;
    if J < I {
      CutBetween(B, Ls, C, I, J, x);
      y := x;
    } else {
      CutOn(B, Ls, C, I, x);
      y := Min(x, Ls[I]);
    }
    AtLeastPermuted(Rs, C[I..], y);
    SortedJoin(C[..I], Rs, y);
    calc {
      multiset(C[..I] + Rs);
      multiset(C[..I]) + multiset(C[I..]);
      { assert C == C[..I] + C[I..]; }
      multiset(C);
      multiset(Ls) + multiset(B[J + 1..]);
      multiset(B[..J + 1]) + multiset(B[J + 1..]);
      { assert B == B[..J + 1] + B[J + 1..]; }
      multiset(B);
    }
  }

  /** `quickSort` on a valid range: sorts `a[l..r)` and leaves the rest alone. */
  method QuickSortRange(a0: seq<int32>, l: nat, r: nat) returns (a: seq<int32>)
    requires l < r <= |a0|
    ensures SameOutside(a, a0, l, r)
    ensures multiset(a[l..r]) == multiset(a0[l..r])
    ensures Sorted(a[l..r])
    decreases r - l
  {
    a := a0;
    if r - l < 2 {
      return;
    }
    var i, j, x;
    a, i, j, x := Partition(a, l, r);
    ghost var b := a;
    if l < j {
      a := QuickSortRange(a, l, j + 1);
    }
    ghost var c := a;
    if i < r - 1 {
      a := QuickSortRange(a, i, r);
    }
    FrameChain(a0, b, c, a, l, r, i, j);
    ghost var B, Ls, C, Rs, D := b[l..r], c[l..j + 1], c[l..r], a[i..r], a[l..r];
    ghost var I: nat, J := i - l, j - l;
    LeftView(b, c, l, r, j, J, B, Ls, C);
    RightView(c, a, l, r, i, I, C, Rs, D);
    PartitionView(b, l, r, i, j, I, J, x, B);
    SegmentSorted(B, Ls, C, Rs, D, I, J, x);
  }

  /** Both recursions stay inside `[l, r)`. */
  lemma FrameChain(a0: seq<int32>, b: seq<int32>, c: seq<int32>, d: seq<int32>, l: nat, r: nat, i: int, j: int)
    requires l < i && j < r
    requires SameOutside(b, a0, l, r)
    requires l < j ==> SameOutside(c, b, l, j + 1)
    requires l >= j ==> c == b
    requires i < r - 1 ==> SameOutside(d, c, i, r)
    requires i >= r - 1 ==> d == c
    ensures SameOutside(d, a0, l, r)
  {
  }

  /** After the left recursion, the segment is the sorted left part followed
      by the partitioned segment's remainder. */
  lemma LeftView(b: seq<int32>, c: seq<int32>, l: nat, r: nat, j: int, J: int, B: seq<int32>, Ls: seq<int32>, C: seq<int32>)
    requires l <= j + 1 < r <= |b|
    requires l < j ==> SameOutside(c, b, l, j + 1) && multiset(c[l..j + 1]) == multiset(b[l..j + 1]) && Sorted(c[l..j + 1])
    requires l >= j ==> c == b
    requires J == j - l && B == b[l..r] && Ls == c[l..j + 1] && C == c[l..r]
    ensures |Ls| == J + 1 && Sorted(Ls) && multiset(Ls) == multiset(B[..J + 1])
    ensures C == Ls + B[J + 1..]
  {
    assert b[l..r][..j + 1 - l] == b[l..j + 1];
    assert b[l..r][j + 1 - l..] == b[j + 1..r];
    assert c[l..r] == c[l..j + 1] + c[j + 1..r];
    var cr, br := c[j + 1..r], b[j + 1..r];
    forall k | 0 <= k < |cr| ensures cr[k] == br[k] {
      assert cr[k] == c[j + 1 + k] && br[k] == b[j + 1 + k];
    }
  }

  /** After the right recursion, the segment is the first `i - l` elements
      left by the left recursion followed by the sorted right part. */
  lemma RightView(c: seq<int32>, d: seq<int32>, l: nat, r: nat, i: int, I: int, C: seq<int32>, Rs: seq<int32>, D: seq<int32>)
    requires l < i <= r <= |c|
    requires i < r - 1 ==> SameOutside(d, c, i, r) && multiset(d[i..r]) == multiset(c[i..r]) && Sorted(d[i..r])
    requires i >= r - 1 ==> d == c
    requires I == i - l && C == c[l..r] && Rs == d[i..r] && D == d[l..r]
    ensures Sorted(Rs) && multiset(Rs) == multiset(C[I..])
    ensures D == C[..I] + Rs
  {
    assert c[l..r][i - l..] == c[i..r];
    assert d[l..r] == d[l..i] + d[i..r];
    assert d[l..i] == c[l..r][..i - l] by {
      forall k | 0 <= k < i - l ensures d[l..i][k] == c[l..r][..i - l][k] {
        assert d[l + k] == c[l + k];
      }
    }
  }

  /** The partition's bounds, seen on the segment. */
  lemma PartitionView(b: seq<int32>, l: nat, r: nat, i: int, j: int, I: int, J: int, x: int32, B: seq<int32>)
    requires l < i <= r <= |b| && l - 1 <= j < r - 1
    requires forall k | l <= k < i :: b[k] <= x
    requires forall k | j < k < r :: x <= b[k]
    requires I == i - l && J == j - l && B == b[l..r]
    ensures AllAtMost(B[..I], x) && AllAtLeast(B[J + 1..], x)
  {
    var lo, hi := B[..I], B[J + 1..];
    forall k | 0 <= k < |lo| ensures lo[k] <= x {
      assert lo[k] == b[l + k];
    }
    forall k | 0 <= k < |hi| ensures x <= hi[k] {
      assert hi[k] == b[j + 1 + k];
    }
  }

  /** `quickSort(array, l, r)`: the parameter check, the early return on a
      range of fewer than two elements, and otherwise an in-range sort of
      `a[l..r)`; a range reaching past the array ends in an index exception. */
  method QuickSort(a0: seq<int32>, l: int, r: int) returns (res: Result<seq<int32>, SortError>)
    ensures res == Failure(IllegalArgument) <==> |a0| < 1 || l < 0 || r <= l
    ensures res == Failure(IndexOutOfBounds) <==> !(|a0| < 1 || l < 0 || r <= l) && r - l >= 2 && r > |a0|
    ensures res.Success? && r - l < 2 ==> res.value == a0
    ensures res.Success? && r - l >= 2 ==>
              && r <= |a0|
              && |res.value| == |a0|
              && res.value[..l] == a0[..l] && res.value[r..] == a0[r..]
              && multiset(res.value[l..r]) == multiset(a0[l..r])
              && Sorted(res.value[l..r])
  {
    if |a0| < 1 || l < 0 || r <= l {
      return Failure(IllegalArgument);
    }
    if r - l < 2 {
      return Success(a0);
    }
    if r > |a0| {
      return Failure(IndexOutOfBounds);
    }
    var a := QuickSortRange(a0, l, r);
    assert a[..l] == a0[..l] && a[r..] == a0[r..];
    return Success(a);
  }
}
