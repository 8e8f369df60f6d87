/** The byte-wise counting sort and the LSD radix sort of h2/src/IntSorting.java.

    A key is a Java `int`; its bytes are those of the 32-bit two's-complement
    pattern read as an unsigned number, since `getValue` shifts with `>>>`. */
module RadixSorting {
  import opened SortCore

  /** `KEYLEN`: the number of byte positions of a key. */
  const KEYLEN: nat := 4

  /** The 32-bit pattern of a Java `int`, read unsigned. */
  function Unsigned(key: int32): (u: nat)
    ensures u < 0x1_0000_0000
    ensures key >= 0 ==> u == key
    ensures key < 0 ==> u >= 0x8000_0000
  {
    if key < 0 then key + 0x1_0000_0000 else key
  }

  function Pow256(p: nat): (r: nat)
    ensures r >= 1
  {
    if p == 0 then 1 else 256 * Pow256(p - 1)
  }

  /** `getValue(key, i)`: `(key >>> (8 * i)) & 0xff`. Java reduces a shift
      distance modulo 32, and `8 * i` modulo 32 is `8 * (i mod 4)`, so the
      byte read is the one at position `i mod 4`. */
  function GetValue(key: int32, i: int): (d: nat)
    ensures d < 256
  {
    ByteOf(Unsigned(key), i % 4)
  }

  /** Byte `p` of `u`: shift right by eight bits `p` times, then keep eight. */
  function ByteOf(u: nat, p: nat): (d: nat)
    ensures d < 256
  {
    if p == 0 then u % 256 else ByteOf(u / 256, p - 1)
  }

  /** Shifting right by `8 * p` bits is dividing by `256^p`. */
  lemma {:induction false} ByteOfDiv(u: nat, p: nat)
    ensures ByteOf(u, p) == (u / Pow256(p)) % 256
  {
    if p > 0 {
      ByteOfDiv(u / 256, p - 1);
      ModSplit(u, 256, Pow256(p - 1));
    }
  }

  /** The key's low `p` bytes, as a number. */
  function Low(key: int32, p: nat): nat
  {
    Unsigned(key) % Pow256(p)
  }

  /** The keys of `s` whose byte `i` is `d`, in their order in `s`. */
  function Filter(s: seq<int32>, i: int, d: int): (f: seq<int32>)
    ensures |f| <= |s|
  {
    if s == [] then []
    else (if GetValue(s[0], i) == d then [s[0]] else []) + Filter(s[1..], i, d)
  }

  /** Every key of a bucket has the bucket's byte. */
  lemma {:induction false} FilterMembers(s: seq<int32>, i: int, d: int)
    ensures forall k | 0 <= k < |Filter(s, i, d)| :: GetValue(Filter(s, i, d)[k], i) == d
  {
    if s != [] {
      FilterMembers(s[1..], i, d);
    }
  }

  /** A bucket holds keys of `s` only. */
  lemma {:induction false} FilterSubset(s: seq<int32>, i: int, d: int)
    ensures forall x | x in Filter(s, i, d) :: x in s
  {
    if s != [] {
      FilterSubset(s[1..], i, d);
    }
  }

  /** The keys of `s` with byte `i` below `e`: the bucket of byte 0, then that
      of byte 1, and so on, each bucket in the order of `s`. */
  function Buckets(s: seq<int32>, i: int, e: nat): seq<int32>
  {
    if e == 0 then [] else Buckets(s, i, e - 1) + Filter(s, i, e - 1)
  }

  // ----- arithmetic on byte positions -----

  /** Division with remainder has one answer. */
  lemma ModUnique(u: nat, n: nat, a: nat, b: nat)
    requires 0 <= b < n && u == a * n + b
    ensures u % n == b && u / n == a
  {
    var q, r := u / n, u % n;
    assert q * n + r == a * n + b;
    if q > a {
      MulAtLeast(q - a, n);
    } else if q < a {
      MulAtLeast(a - q, n);
    }
  }

  lemma MulAtLeast(k: nat, n: nat)
    requires k >= 1
    ensures k * n >= n
  {
    assert k * n == (k - 1) * n + n;
  }

  lemma ModSplit(u: nat, B: nat, M: nat)
    requires B > 0 && M > 0
    ensures u % (B * M) == ((u / B) % M) * B + u % B
    ensures u / (B * M) == (u / B) / M
  {
    var q, rB := u / B, u % B;
    var qq, qm := q / M, q % M;
    SplitCombine(u, B, M, q, rB, qq, qm);
    ModUnique(u, B * M, qq, qm * B + rB);
  }

  /** Two divisions in a row as one division by the product. */
  lemma SplitCombine(u: nat, B: nat, M: nat, q: nat, rB: nat, qq: nat, qm: nat)
    requires u == q * B + rB && rB < B && q == qq * M + qm && qm < M
    ensures u == qq * (B * M) + (qm * B + rB) && qm * B + rB < B * M
  {
    Regroup(qq, M, qm, B);
    BelowProduct(qm, M, rB, B);
  }

  lemma Regroup(qq: nat, M: nat, qm: nat, B: nat)
    ensures (qq * M + qm) * B == qq * (B * M) + qm * B
  {
  }

  lemma BelowProduct(qm: nat, M: nat, rB: nat, B: nat)
    requires qm < M && rB < B
    ensures qm * B + rB < B * M
  {
    var k := M - 1 - qm;
    assert qm * B + B == (qm + 1) * B;
    assert M * B == (qm + 1) * B + k * B by {
      assert M == (qm + 1) + k;
    }
    assert k * B >= 0;
  }

  /** The low `p + 1` bytes are byte `p` above the low `p` bytes. */
  lemma LowStep(key: int32, p: nat)
    requires p < KEYLEN
    ensures Low(key, p + 1) == GetValue(key, p) * Pow256(p) + Low(key, p)
    ensures Low(key, p) < Pow256(p)
  {
    var u, B := Unsigned(key), Pow256(p);
    assert Pow256(p + 1) == B * 256;
    ByteOfDiv(u, p);
    assert GetValue(key, p) == (u / B) % 256 by {
      assert p % 4 == p;
    }
    ModSplit(u, B, 256);
    assert Low(key, p + 1) == u % (B * 256);
  }

  /** The four bytes make up the whole key. */
  lemma LowAll(key: int32)
    ensures Low(key, KEYLEN) == Unsigned(key)
  {
    assert Pow256(4) == 0x1_0000_0000;
  }

  /** The key read back from its four bytes, least significant first. */
  lemma KeyFromBytes(key: int32)
    ensures Unsigned(key) == GetValue(key, 0) + 256 * GetValue(key, 1)
                             + 65536 * GetValue(key, 2) + 16777216 * GetValue(key, 3)
  {
    var b0, b1, b2, b3 := GetValue(key, 0), GetValue(key, 1), GetValue(key, 2), GetValue(key, 3);
    assert Pow256(1) == 256 && Pow256(2) == 65536 && Pow256(3) == 16777216;
    assert Low(key, 0) == 0;
    LowStep(key, 0);
    assert Low(key, 1) == b0;
    LowStep(key, 1);
    assert Low(key, 2) == b0 + 256 * b1;
    LowStep(key, 2);
    assert Low(key, 3) == b0 + 256 * b1 + 65536 * b2;
    LowStep(key, 3);
    LowAll(key);
  }

  // ----- filters and buckets -----

  lemma {:induction false} FilterAppend(s: seq<int32>, t: seq<int32>, i: int, d: int)
    ensures Filter(s + t, i, d) == Filter(s, i, d) + Filter(t, i, d)
  {
    if s != [] {
      assert (s + t)[1..] == s[1..] + t;
      FilterAppend(s[1..], t, i, d);
    } else {
      assert s + t == t;
    }
  }

  /** How many times `x` occurs in `s`. */
  function Occurrences(s: seq<int32>, x: int32): nat
  {
    if s == [] then 0 else (if s[0] == x then 1 else 0) + Occurrences(s[1..], x)
  }

  lemma {:induction false} OccurrencesAppend(s: seq<int32>, t: seq<int32>, x: int32)
    ensures Occurrences(s + t, x) == Occurrences(s, x) + Occurrences(t, x)
  {
    if s != [] {
      assert (s + t)[1..] == s[1..] + t;
      OccurrencesAppend(s[1..], t, x);
    } else {
      assert s + t == t;
    }
  }

  lemma {:induction false} OccurrencesMultiset(s: seq<int32>, x: int32)
    ensures Occurrences(s, x) == multiset(s)[x]
  {
    if s != [] {
      OccurrencesMultiset(s[1..], x);
      assert s == [s[0]] + s[1..];
    }
  }

  /** How many copies of `x` a bucket holds. */
  lemma {:induction false} FilterCount(s: seq<int32>, i: int, d: int, x: int32)
    ensures Occurrences(Filter(s, i, d), x) == if GetValue(x, i) == d then Occurrences(s, x) else 0
  {
    if s != [] {
      var head := if GetValue(s[0], i) == d then [s[0]] else [];
      FilterCount(s[1..], i, d, x);
      OccurrencesAppend(head, Filter(s[1..], i, d), x);
    }
  }

  lemma {:induction false} BucketsCount(s: seq<int32>, i: int, e: nat, x: int32)
    ensures Occurrences(Buckets(s, i, e), x) == if GetValue(x, i) < e then Occurrences(s, x) else 0
  {
    if e > 0 {
      BucketsCount(s, i, e - 1, x);
      FilterCount(s, i, e - 1, x);
      OccurrencesAppend(Buckets(s, i, e - 1), Filter(s, i, e - 1), x);
    }
  }

  /** Taking all 256 buckets keeps every key exactly as often as it occurs. */
  lemma BucketsPermutes(s: seq<int32>, i: int)
    ensures multiset(Buckets(s, i, 256)) == multiset(s)
    ensures |Buckets(s, i, 256)| == |s|
  {
    forall x ensures multiset(Buckets(s, i, 256))[x] == multiset(s)[x] {
      BucketsCount(s, i, 256, x);
      OccurrencesMultiset(Buckets(s, i, 256), x);
      OccurrencesMultiset(s, x);
    }
    assert multiset(Buckets(s, i, 256)) == multiset(s);
    assert |multiset(Buckets(s, i, 256))| == |multiset(s)|;
  }

  lemma {:induction false} BucketsGrow(s: seq<int32>, i: int, e: nat, e': nat)
    requires e <= e'
    ensures |Buckets(s, i, e)| <= |Buckets(s, i, e')|
    decreases e' - e
  {
    if e < e' {
      BucketsGrow(s, i, e, e' - 1);
    }
  }

  lemma {:induction false} BucketsHaveSmallBytes(s: seq<int32>, i: int, e: nat)
    ensures forall k | 0 <= k < |Buckets(s, i, e)| :: GetValue(Buckets(s, i, e)[k], i) < e
  {
    if e > 0 {
      BucketsHaveSmallBytes(s, i, e - 1);
      FilterMembers(s, i, e - 1);
      var b, f := Buckets(s, i, e - 1), Filter(s, i, e - 1);
      forall k | 0 <= k < |b + f| ensures GetValue((b + f)[k], i) < e {
        if k < |b| {
          assert (b + f)[k] == b[k];
        } else {
          assert (b + f)[k] == f[k - |b|];
        }
      }
    }
  }

  /** Filtering a bucket again by the same byte keeps it whole; by another byte
      empties it. */
  lemma {:induction false} FilterFilter(s: seq<int32>, i: int, d: int, d': int)
    ensures Filter(Filter(s, i, d'), i, d) == if d == d' then Filter(s, i, d) else []
  {
    if s != [] {
      FilterFilter(s[1..], i, d, d');
      var head := if GetValue(s[0], i) == d' then [s[0]] else [];
      FilterAppend(head, Filter(s[1..], i, d'), i, d);
      if head != [] {
        assert head[1..] == [];
      }
    }
  }

  lemma {:induction false} FilterBuckets(s: seq<int32>, i: int, e: nat, d: int)
    ensures Filter(Buckets(s, i, e), i, d) == if 0 <= d < e then Filter(s, i, d) else []
  {
    if e > 0 {
      FilterBuckets(s, i, e - 1, d);
      FilterBucketsStep(Buckets(s, i, e), Buckets(s, i, e - 1), s, i, e - 1, d);
    }
  }

  /** Adding the bucket of byte `c` to the buckets below it adds that
      bucket's keys to the keys with byte `d` exactly when `d` is `c`. */
  lemma FilterBucketsStep(all: seq<int32>, below: seq<int32>, s: seq<int32>, i: int, c: nat, d: int)
    requires all == below + Filter(s, i, c)
    requires Filter(below, i, d) == if 0 <= d < c then Filter(s, i, d) else []
    ensures Filter(all, i, d) == if 0 <= d < c + 1 then Filter(s, i, d) else []
  {
    FilterJoin(below, s, i, d, c);
    var F := Filter(s, i, d);
    if 0 <= d < c {
      assert F + [] == F;
    } else if d == c {
      assert [] + F == F;
    }
  }

  lemma FilterJoin(b: seq<int32>, s: seq<int32>, i: int, d: int, c: int)
    ensures Filter(b + Filter(s, i, c), i, d) == Filter(b, i, d) + if d == c then Filter(s, i, d) else []
  {
    FilterAppend(b, Filter(s, i, c), i, d);
    FilterFilter(s, i, d, c);
  }

  /** Counting sort is stable: the keys sharing byte `i` appear in the result in
      the same order as in the input. */
  lemma BucketsStable(s: seq<int32>, i: int, d: int)
    ensures Filter(Buckets(s, i, 256), i, d) == Filter(s, i, d)
  {
    FilterBuckets(s, i, 256, d);
    if !(0 <= d < 256) {
      NoKeyWithByte(s, i, d);
    }
  }

  lemma {:induction false} NoKeyWithByte(s: seq<int32>, i: int, d: int)
    requires !(0 <= d < 256)
    ensures Filter(s, i, d) == []
  {
    if s != [] {
      NoKeyWithByte(s[1..], i, d);
    }
  }

  /** The buckets' result is ordered by byte `i`. */
  lemma {:induction false} BucketsOrdered(s: seq<int32>, i: int, e: nat)
    ensures forall p, q | 0 <= p < q < |Buckets(s, i, e)| ::
              GetValue(Buckets(s, i, e)[p], i) <= GetValue(Buckets(s, i, e)[q], i)
  {
    if e > 0 {
      BucketsOrdered(s, i, e - 1);
      BucketsHaveSmallBytes(s, i, e - 1);
      FilterMembers(s, i, e - 1);
      var b, f := Buckets(s, i, e - 1), Filter(s, i, e - 1);
      forall p, q | 0 <= p < q < |b + f| ensures GetValue((b + f)[p], i) <= GetValue((b + f)[q], i) {
        if q < |b| {
          assert (b + f)[p] == b[p] && (b + f)[q] == b[q];
        } else if p < |b| {
          assert (b + f)[p] == b[p] && (b + f)[q] == f[q - |b|];
        } else {
          assert (b + f)[p] == f[p - |b|] && (b + f)[q] == f[q - |b|];
        }
      }
    }
  }

  // ----- counting sort -----

  /** The first loop's state: `freq[d]` counts the keys of `keys[..k]` with
      byte `d`. */
  ghost predicate Counted(keys: seq<int32>, i: int, k: nat, freq: seq<int>)
    requires k <= |keys|
  {
    |freq| == 256 && forall d | 0 <= d < 256 :: freq[d] == |Filter(keys[..k], i, d)|
  }

  /** The backward placement loop's state after placing `keys[j + 1..]`:
      `freq[d]` is where bucket `d`'s next key (from the right) goes, and the
      part of bucket `d` from there to its end holds, in order, the keys of
      `keys[j + 1..]` with byte `d`. */
  ghost predicate Placed(keys: seq<int32>, i: int, j: int, freq: seq<int>, res: seq<int32>)
    requires -1 <= j < |keys|
  {
    && |freq| == 256 && |res| == |keys|
    && Cursors(keys, i, j, freq)
    && Filled(keys, i, j, freq, res)
  }

  /** Each bucket's cursor sits above its start by the number of keys with
      that byte still to be placed. */
  ghost predicate Cursors(keys: seq<int32>, i: int, j: int, freq: seq<int>)
    requires -1 <= j < |keys| && |freq| == 256
  {
    forall d | 0 <= d < 256 :: CursorAt(keys, i, j, freq, d)
  }

  ghost predicate CursorAt(keys: seq<int32>, i: int, j: int, freq: seq<int>, d: int)
    requires -1 <= j < |keys| && |freq| == 256 && 0 <= d < 256
  {
    freq[d] == |Buckets(keys, i, d)| + |Filter(keys[..j + 1], i, d)|
  }

  /** Bucket `d`'s cursor is not below the bucket's start. */
  ghost predicate CursorAbove(keys: seq<int32>, i: int, freq: seq<int>, d: int)
    requires |freq| == 256 && 0 <= d < 256
  {
    |Buckets(keys, i, d)| <= freq[d]
  }

  /** From each cursor to its bucket's end, the placed keys of that bucket. */
  ghost predicate Filled(keys: seq<int32>, i: int, j: int, freq: seq<int>, res: seq<int32>)
    requires -1 <= j < |keys| && |freq| == 256
  {
    forall d | 0 <= d < 256 :: FilledIn(keys, i, j, freq, res, d)
  }

  ghost predicate FilledIn(keys: seq<int32>, i: int, j: int, freq: seq<int>, res: seq<int32>, d: int)
    requires -1 <= j < |keys| && |freq| == 256 && 0 <= d < 256
  {
    && 0 <= freq[d] <= |Buckets(keys, i, d + 1)| <= |res|
    && res[freq[d]..|Buckets(keys, i, d + 1)|] == Filter(keys[j + 1..], i, d)
  }

  /** `countSort(keys, i)`: count the keys per byte `i`, turn the counts into
      bucket ends by prefix sums, then place the keys from the last to the
      first, each just below its bucket's current end. The result is the
      concatenation of the 256 buckets. */
  method CountSort(keys: seq<int32>, i: int) returns (res: seq<int32>)
    ensures res == Buckets(keys, i, 256)
    ensures multiset(res) == multiset(keys)
  {
    var freq := CountBytes(keys, i);
    freq := BucketEnds(keys, i, freq);
    res := seq(|keys|, _ => 0);
    PlacedStart(keys, i, freq, res);
    res := PlaceAll(keys, i, freq, res);
    BucketsPermutes(keys, i);
  }

  /** The first loop: `freq[d]` becomes the number of keys with byte `d`. */
  method CountBytes(keys: seq<int32>, i: int) returns (freq: seq<int>)
    ensures |freq| == 256
    ensures forall d | 0 <= d < 256 :: freq[d] == |Filter(keys, i, d)|
  {
    freq := seq(256, _ => 0);
    var k := 0;
    assert keys[..0] == [];
    while k < |keys|
      invariant 0 <= k <= |keys|
      invariant Counted(keys, i, k, freq)
    {
      CountStep(keys, i, k, freq);
      var v := GetValue(keys[k], i);
      freq := freq[v := freq[v] + 1];
      k := k + 1;
    }
    assert keys[..|keys|] == keys;
  }

  /** The second loop: prefix sums turn the counts into the end of each
      bucket. */
  method BucketEnds(keys: seq<int32>, i: int, counts: seq<int>) returns (freq: seq<int>)
    requires |counts| == 256
    requires forall d | 0 <= d < 256 :: counts[d] == |Filter(keys, i, d)|
    ensures |freq| == 256
    ensures forall d {:trigger freq[d]} | 0 <= d < 256 :: freq[d] == |Buckets(keys, i, d + 1)|
  {
    freq := counts;
    var k := 1;
    while k < 256
      invariant 1 <= k <= 256 && |freq| == 256
      invariant forall d | 0 <= d < k :: freq[d] == |Buckets(keys, i, d + 1)|
      invariant forall d | k <= d < 256 :: freq[d] == |Filter(keys, i, d)|
    {
      freq := freq[k := freq[k - 1] + freq[k]];
      k := k + 1;
    }
  }

  /** The third loop: place the keys from the last to the first, each just
      below its bucket's cursor. */
  method PlaceAll(keys: seq<int32>, i: int, freq0: seq<int>, res0: seq<int32>) returns (res: seq<int32>)
    requires Placed(keys, i, |keys| - 1, freq0, res0)
    ensures res == Buckets(keys, i, 256)
  {
    var freq := freq0;
    res := res0;
    var j := |keys| - 1;
    while j >= 0
      invariant -1 <= j < |keys|
      invariant Placed(keys, i, j, freq, res)
    {
      freq, res := PlaceOne(keys, i, j, freq, res);
      j := j - 1;
    }
    PlacedEnd(keys, i, freq, res);
  }

  /** One placement: step the cursor of `keys[j]`'s bucket down and store the
      key there. */
  method PlaceOne(keys: seq<int32>, i: int, j: nat, freq: seq<int>, res: seq<int32>)
    returns (freq': seq<int>, res': seq<int32>)
    requires j < |keys| && Placed(keys, i, j, freq, res)
    ensures Placed(keys, i, j - 1, freq', res')
  {
    var v := GetValue(keys[j], i);
    PlaceNext(keys, i, j, freq, res);
    var pos := freq[v] - 1;
    freq' := freq[v := pos];
    res' := res[pos := keys[j]];
  }

  /** The slot below `keys[j]`'s cursor is inside the result, and filling it
      keeps `Placed`. */
  lemma PlaceNext(keys: seq<int32>, i: int, j: nat, freq: seq<int>, res: seq<int32>)
    requires j < |keys| && Placed(keys, i, j, freq, res)
    ensures var v := GetValue(keys[j], i);
            && 0 <= freq[v] - 1 < |res|
            && Placed(keys, i, j - 1, freq[v := freq[v] - 1], res[freq[v] - 1 := keys[j]])
  {
    var v := GetValue(keys[j], i);
    PlaceSlot(keys, i, j, freq, res);
    PlaceStep(keys, i, j, freq, res, freq[v := freq[v] - 1], res[freq[v] - 1 := keys[j]]);
  }

  /** The slot below the cursor of `keys[j]`'s bucket is inside the result. */
  lemma PlaceSlot(keys: seq<int32>, i: int, j: nat, freq: seq<int>, res: seq<int32>)
    requires j < |keys| && Placed(keys, i, j, freq, res)
    ensures var v := GetValue(keys[j], i); 0 <= freq[v] - 1 < |res|
  {
    var v := GetValue(keys[j], i);
    CursorStep(keys, i, j, freq);
    assert FilledIn(keys, i, j, freq, res, v);
  }

  lemma CountStep(keys: seq<int32>, i: int, k: nat, freq: seq<int>)
    requires k < |keys| && Counted(keys, i, k, freq)
    ensures Counted(keys, i, k + 1, freq[GetValue(keys[k], i) := freq[GetValue(keys[k], i)] + 1])
  {
    assert keys[..k + 1] == keys[..k] + [keys[k]];
    forall d | 0 <= d < 256 ensures |Filter(keys[..k + 1], i, d)| == |Filter(keys[..k], i, d)| + (if GetValue(keys[k], i) == d then 1 else 0) {
      FilterAppend(keys[..k], [keys[k]], i, d);
    }
  }

  lemma PlacedStart(keys: seq<int32>, i: int, freq: seq<int>, res: seq<int32>)
    requires |freq| == 256 && |res| == |keys|
    requires forall d {:trigger freq[d]} | 0 <= d < 256 :: freq[d] == |Buckets(keys, i, d + 1)|
    ensures Placed(keys, i, |keys| - 1, freq, res)
  {
    var j := |keys| - 1;
    assert keys[..j + 1] == keys && keys[j + 1..] == [];
    BucketsPermutes(keys, i);
    forall d | 0 <= d < 256 ensures CursorAt(keys, i, j, freq, d) && FilledIn(keys, i, j, freq, res, d) {
      assert freq[d] == |Buckets(keys, i, d + 1)|;
      BucketsGrow(keys, i, d + 1, 256);
    }
  }

  /** One step of the placement loop keeps `Placed`: the key goes to the slot
      just below its bucket's current cursor, which lies inside that bucket's
      range and outside every other bucket's filled part. */
  lemma PlaceStep(keys: seq<int32>, i: int, j: nat, freq: seq<int>, res: seq<int32>, freq': seq<int>, res': seq<int32>)
    requires j < |keys| && Placed(keys, i, j, freq, res)
    requires var v := GetValue(keys[j], i);
             && freq' == freq[v := freq[v] - 1]
             && 0 <= freq[v] - 1 < |res|
             && res' == res[freq[v] - 1 := keys[j]]
    ensures Placed(keys, i, j - 1, freq', res')
  {
    CursorStep(keys, i, j, freq);
    FilledStep(keys, i, j, freq, res);
  }

  lemma CursorStep(keys: seq<int32>, i: int, j: nat, freq: seq<int>)
    requires j < |keys| && |freq| == 256 && Cursors(keys, i, j, freq)
    ensures var v := GetValue(keys[j], i);
            && Cursors(keys, i, j - 1, freq[v := freq[v] - 1])
            && |Buckets(keys, i, v)| < freq[v]
            && forall d | 0 <= d < 256 :: CursorAbove(keys, i, freq, d)
  {
    var v := GetValue(keys[j], i);
    var freq' := freq[v := freq[v] - 1];
    assert keys[..j + 1] == keys[..j] + [keys[j]];
    assert keys[..j - 1 + 1] == keys[..j];
    var j' := j - 1;
    forall d | 0 <= d < 256
      ensures CursorAt(keys, i, j', freq', d) && CursorAbove(keys, i, freq, d)
    {
      assert CursorAt(keys, i, j, freq, d);
      FilterAppend(keys[..j], [keys[j]], i, d);
      FilterSingle(keys[j], i, d);
    }
    assert |Buckets(keys, i, v)| < freq[v] by {
      assert CursorAt(keys, i, j, freq, v);
      FilterAppend(keys[..j], [keys[j]], i, v);
      FilterSingle(keys[j], i, v);
    }
  }

  lemma FilterSingle(x: int32, i: int, d: int)
    ensures Filter([x], i, d) == if GetValue(x, i) == d then [x] else []
  {
    assert [x][1..] == [];
  }

  lemma FilledStep(keys: seq<int32>, i: int, j: nat, freq: seq<int>, res: seq<int32>)
    requires j < |keys| && |freq| == 256 && Filled(keys, i, j, freq, res)
    requires forall d | 0 <= d < 256 :: CursorAbove(keys, i, freq, d)
    requires |Buckets(keys, i, GetValue(keys[j], i))| < freq[GetValue(keys[j], i)]
    ensures var v := GetValue(keys[j], i);
            var pos := freq[v] - 1;
            && 0 <= pos < |res|
            && Filled(keys, i, j - 1, freq[v := pos], res[pos := keys[j]])
  {
    var v := GetValue(keys[j], i);
    assert FilledIn(keys, i, j, freq, res, v);
    var pos := freq[v] - 1;
    var freq' := freq[v := pos];
    var res' := res[pos := keys[j]];
    var j' := j - 1;
    forall d | 0 <= d < 256 ensures FilledIn(keys, i, j', freq', res', d) {
      assert FilledIn(keys, i, j, freq, res, d) && CursorAbove(keys, i, freq, d);
      FilledAt(keys, i, j, freq, res, d);
    }
  }

  /** One bucket's filled part after the step. */
  lemma FilledAt(keys: seq<int32>, i: int, j: nat, freq: seq<int>, res: seq<int32>, d: int)
    requires j < |keys| && |freq| == 256 && 0 <= d < 256
    requires |Buckets(keys, i, d)| <= freq[d] <= |Buckets(keys, i, d + 1)| <= |res|
    requires res[freq[d]..|Buckets(keys, i, d + 1)|] == Filter(keys[j + 1..], i, d)
    requires var v := GetValue(keys[j], i);
             |Buckets(keys, i, v)| < freq[v] <= |Buckets(keys, i, v + 1)| <= |res|
    ensures var v := GetValue(keys[j], i);
            var res' := res[freq[v] - 1 := keys[j]];
            var freq' := freq[v := freq[v] - 1];
            && freq'[d] <= |Buckets(keys, i, d + 1)| <= |res'|
            && res'[freq'[d]..|Buckets(keys, i, d + 1)|] == Filter(keys[j..], i, d)
  {
    var v := GetValue(keys[j], i);
    if d == v {
      SlotOwn(keys, i, j, res, freq[v] - 1, |Buckets(keys, i, d + 1)|);
    } else {
      FilledOther(keys, i, j, res, d, v, freq[d], freq[v] - 1);
    }
  }

  /** Another bucket's filled part is untouched by the write at `pos`. */
  lemma FilledOther(keys: seq<int32>, i: int, j: nat, res: seq<int32>, d: int, v: int, lo: int, pos: int)
    requires j < |keys| && 0 <= d < 256 && v == GetValue(keys[j], i) && d != v
    requires |Buckets(keys, i, d)| <= lo <= |Buckets(keys, i, d + 1)| <= |res|
    requires |Buckets(keys, i, v)| <= pos < |Buckets(keys, i, v + 1)| <= |res|
    requires res[lo..|Buckets(keys, i, d + 1)|] == Filter(keys[j + 1..], i, d)
    ensures res[pos := keys[j]][lo..|Buckets(keys, i, d + 1)|] == Filter(keys[j..], i, d)
  {
    if d < v {
      SlotAbove(keys, i, d, v, pos);
    } else {
      SlotBelow(keys, i, d, v, pos);
    }
    SlotOther(keys, i, j, res, pos, d, lo, |Buckets(keys, i, d + 1)|);
  }

  /** A slot inside the range of a later bucket `v` lies above all of bucket `d`. */
  lemma SlotAbove(keys: seq<int32>, i: int, d: nat, v: nat, pos: int)
    requires d < v && |Buckets(keys, i, v)| <= pos
    ensures |Buckets(keys, i, d + 1)| <= pos
  {
    BucketsGrow(keys, i, d + 1, v);
  }

  /** A slot inside the range of an earlier bucket `v` lies below all of bucket `d`. */
  lemma SlotBelow(keys: seq<int32>, i: int, d: nat, v: nat, pos: int)
    requires v < d && pos < |Buckets(keys, i, v + 1)|
    ensures pos < |Buckets(keys, i, d)|
  {
    BucketsGrow(keys, i, v + 1, d);
  }

  /** Writing `keys[j]` just below the filled part of its own bucket extends
      that part by the key. */
  lemma SlotOwn(keys: seq<int32>, i: int, j: nat, res: seq<int32>, pos: int, hi: int)
    requires j < |keys| && 0 <= pos < hi <= |res|
    requires res[pos + 1..hi] == Filter(keys[j + 1..], i, GetValue(keys[j], i))
    ensures res[pos := keys[j]][pos..hi] == Filter(keys[j..], i, GetValue(keys[j], i))
  {
    assert keys[j..] == [keys[j]] + keys[j + 1..];
    assert keys[j..][1..] == keys[j + 1..];
    assert res[pos := keys[j]][pos..hi] == [keys[j]] + res[pos + 1..hi];
  }

  /** Writing `keys[j]` outside the filled part of another bucket leaves it
      alone. */
  lemma SlotOther(keys: seq<int32>, i: int, j: nat, res: seq<int32>, pos: int, d: int, lo: int, hi: int)
    requires j < |keys| && 0 <= pos < |res| && d != GetValue(keys[j], i)
    requires 0 <= lo <= hi <= |res| && (pos < lo || hi <= pos)
    requires res[lo..hi] == Filter(keys[j + 1..], i, d)
    ensures res[pos := keys[j]][lo..hi] == Filter(keys[j..], i, d)
  {
    assert keys[j..] == [keys[j]] + keys[j + 1..];
    assert keys[j..][1..] == keys[j + 1..];
    assert res[pos := keys[j]][lo..hi] == res[lo..hi];
  }

  /** When every key is placed, each bucket occupies exactly its range, so the
      result is the concatenation of the buckets. */
  lemma PlacedEnd(keys: seq<int32>, i: int, freq: seq<int>, res: seq<int32>)
    requires Placed(keys, i, -1, freq, res)
    ensures res == Buckets(keys, i, 256)
  {
    assert keys[..0] == [] && keys[0..] == keys;
    BucketsPermutes(keys, i);
    PrefixIsBuckets(keys, i, freq, res, 256);
    assert res[..|res|] == res;
  }

  lemma {:induction false} PrefixIsBuckets(keys: seq<int32>, i: int, freq: seq<int>, res: seq<int32>, e: nat)
    requires Placed(keys, i, -1, freq, res) && e <= 256
    ensures |Buckets(keys, i, e)| <= |res| && res[..|Buckets(keys, i, e)|] == Buckets(keys, i, e)
  {
    assert keys[..0] == [] && keys[0..] == keys;
    if e > 0 {
      PrefixIsBuckets(keys, i, freq, res, e - 1);
      var lo, hi := |Buckets(keys, i, e - 1)|, |Buckets(keys, i, e)|;
      assert CursorAt(keys, i, -1, freq, e - 1) && FilledIn(keys, i, -1, freq, res, e - 1);
      assert freq[e - 1] == lo;
      assert res[..hi] == res[..lo] + res[lo..hi];
    }
  }

  // ----- radix sort -----

  /** `s` is ordered by the low `p` bytes of its keys. */
  predicate SortedLow(s: seq<int32>, p: nat)
  {
    forall a, b | 0 <= a < b < |s| :: Low(s[a], p) <= Low(s[b], p)
  }

  lemma {:induction false} FilterSortedLow(s: seq<int32>, i: int, d: int, p: nat)
    requires SortedLow(s, p)
    ensures SortedLow(Filter(s, i, d), p)
  {
    if s != [] {
      assert SortedLow(s[1..], p) by {
        forall a, b | 0 <= a < b < |s[1..]| ensures Low(s[1..][a], p) <= Low(s[1..][b], p) {
          assert s[1..][a] == s[a + 1] && s[1..][b] == s[b + 1];
        }
      }
      FilterSortedLow(s[1..], i, d, p);
      FilterSubset(s[1..], i, d);
      var rest := Filter(s[1..], i, d);
      forall x | x in rest ensures Low(s[0], p) <= Low(x, p) {
        assert x in s[1..];
        var m :| 0 <= m < |s[1..]| && s[1..][m] == x;
        assert s[m + 1] == x;
      }
    }
  }

  /** The step of LSD radix sort: a stable pass on byte `p` of keys already
      ordered by their low `p` bytes orders them by their low `p + 1` bytes. */
  lemma {:induction false} PassSortsLow(s: seq<int32>, p: nat, e: nat)
    requires p < KEYLEN && SortedLow(s, p)
    ensures SortedLow(Buckets(s, p, e), p + 1)
  {
    if e > 0 {
      PassSortsLow(s, p, e - 1);
      BucketsHaveSmallBytes(s, p, e - 1);
      FilterSortedLow(s, p, e - 1, p);
      FilterMembers(s, p, e - 1);
      JoinSortedLow(Buckets(s, p, e - 1), Filter(s, p, e - 1), p, e - 1);
    }
  }

  /** Keys with bytes below `d`, ordered by `p + 1` bytes, followed by keys
      with byte `d`, ordered by `p` bytes, are ordered by `p + 1` bytes. */
  lemma JoinSortedLow(b: seq<int32>, f: seq<int32>, p: nat, d: nat)
    requires p < KEYLEN && SortedLow(b, p + 1) && SortedLow(f, p)
    requires forall k | 0 <= k < |b| :: GetValue(b[k], p) < d
    requires forall k | 0 <= k < |f| :: GetValue(f[k], p) == d
    ensures SortedLow(b + f, p + 1)
  {
    forall a, c | 0 <= a < c < |b + f| ensures Low((b + f)[a], p + 1) <= Low((b + f)[c], p + 1) {
      if c < |b| {
        assert (b + f)[a] == b[a] && (b + f)[c] == b[c];
      } else if a < |b| {
        var x, y := b[a], f[c - |b|];
        assert (b + f)[a] == x && (b + f)[c] == y;
        LowAcross(x, y, p, d);
      } else {
        var x, y := f[a - |b|], f[c - |b|];
        assert (b + f)[a] == x && (b + f)[c] == y;
        LowSameByte(x, y, p);
      }
    }
  }

  lemma LowAcross(x: int32, y: int32, p: nat, d: nat)
    requires p < KEYLEN && GetValue(x, p) < d && GetValue(y, p) == d
    ensures Low(x, p + 1) < Low(y, p + 1)
  {
    LowStep(x, p);
    LowStep(y, p);
    DigitDominates(GetValue(x, p), Low(x, p), d, Low(y, p), Pow256(p));
  }

  /** A larger digit outweighs everything below it. */
  lemma DigitDominates(gx: nat, lx: nat, gy: nat, ly: nat, B: nat)
    requires gx < gy && lx < B
    ensures gx * B + lx < gy * B + ly
  {
    var k := gy - gx - 1;
    assert gy * B == gx * B + B + k * B;
    assert k * B >= 0;
  }

  lemma LowSameByte(x: int32, y: int32, p: nat)
    requires p < KEYLEN && GetValue(x, p) == GetValue(y, p) && Low(x, p) <= Low(y, p)
    ensures Low(x, p + 1) <= Low(y, p + 1)
  {
    LowStep(x, p);
    LowStep(y, p);
  }

  /** `radixSort`: four stable counting-sort passes, from the least significant
      byte up, then the result copied back. The keys end up ordered by their
      unsigned 32-bit value, which is ascending order when no key is negative. */
  method RadixSort(keys: seq<int32>) returns (sorted: seq<int32>)
    ensures multiset(sorted) == multiset(keys)
    ensures forall a, b | 0 <= a < b < |sorted| :: Unsigned(sorted[a]) <= Unsigned(sorted[b])
    ensures (forall k | 0 <= k < |keys| :: keys[k] >= 0) ==> Sorted(sorted)
  {
    var res := keys;
    var p := 0;
    while p < KEYLEN
      invariant 0 <= p <= KEYLEN
      invariant multiset(res) == multiset(keys)
      invariant SortedLow(res, p)
    {
      PassSortsLow(res, p, 256);
      res := CountSort(res, p);
      p := p + 1;
    }
    assert |res| == |keys| by {
      assert |multiset(res)| == |multiset(keys)|;
    }
    sorted := ArrayCopy(res, 0, keys, 0, |keys|);
    assert sorted == res;
    AllBytesSorted(sorted);
    NonNegativeSorted(keys, sorted);
  }

  /** Ordered by all four bytes is ordered by the unsigned value. */
  lemma AllBytesSorted(s: seq<int32>)
    requires SortedLow(s, KEYLEN)
    ensures forall a, b | 0 <= a < b < |s| :: Unsigned(s[a]) <= Unsigned(s[b])
  {
    forall a, b | 0 <= a < b < |s| ensures Unsigned(s[a]) <= Unsigned(s[b]) {
      LowAll(s[a]);
      LowAll(s[b]);
    }
  }

  /** Among keys that are not negative, the unsigned order is the signed one. */
  lemma NonNegativeSorted(keys: seq<int32>, s: seq<int32>)
    requires multiset(s) == multiset(keys)
    requires forall a, b | 0 <= a < b < |s| :: Unsigned(s[a]) <= Unsigned(s[b])
    ensures (forall k | 0 <= k < |keys| :: keys[k] >= 0) ==> Sorted(s)
  {
    if forall k | 0 <= k < |keys| :: keys[k] >= 0 {
      forall a | 0 <= a < |s| ensures s[a] >= 0 {
        assert s[a] in multiset(keys);
      }
    }
  }
}
