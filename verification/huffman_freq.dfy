/** Byte-frequency counting (h7/src/Huffman.java, `calculateCharFrequencies`). */
module HuffmanFrequencies {
  import opened HuffmanTree

  /** No element of `s` occurs twice. */
  predicate NoDup<T(==)>(s: seq<T>)
  {
    forall i, j | 0 <= i < j < |s| :: s[i] != s[j]
  }

  /** `order` lists each key of `m` exactly once: the model of one iteration
      order of a `HashMap`'s entry set, which Java leaves unspecified. */
  predicate IsEnumeration<V>(order: seq<Byte>, m: map<Byte, V>)
  {
    && NoDup(order)
    && (forall b :: b in order ==> b in m)
    && (forall b :: b in m ==> b in order)
  }

  /** The frequency table, built as the source builds it: one pass over the
      input, incrementing the entry of each byte (starting from 0 when absent). */
  function Frequencies(s: seq<Byte>): (m: map<Byte, nat>)
    ensures forall b :: b in m <==> b in s
    ensures forall b :: b in m ==> m[b] == multiset(s)[b] && m[b] >= 1
    decreases |s|
  {
    if s == [] then map[]
    else
      var m := Frequencies(s[..|s| - 1]);
      var b := s[|s| - 1];
      assert s == s[..|s| - 1] + [b];
      m[b := (if b in m then m[b] else 0) + 1]
  }

  /** Sum of the table's entries, visited in `order`. */
  function SumOver(m: map<Byte, nat>, order: seq<Byte>): nat
    requires forall b :: b in order ==> b in m
  {
    if order == [] then 0 else m[order[0]] + SumOver(m, order[1..])
  }

  /** Sum over `order` of the number of occurrences of each listed byte in `s`. */
  function CountSum(s: seq<Byte>, order: seq<Byte>): nat
  {
    if order == [] then 0 else multiset(s)[order[0]] + CountSum(s, order[1..])
  }

  /** Without duplicates, a byte occurs once in the list or not at all. */
  lemma {:induction false} NoDupCount<T>(s: seq<T>, x: T)
    requires NoDup(s)
    ensures multiset(s)[x] == if x in s then 1 else 0
  {
    if s != [] {
      assert s == [s[0]] + s[1..];
      assert NoDup(s[1..]) by {
        forall i, j | 0 <= i < j < |s[1..]| ensures s[1..][i] != s[1..][j] {
          assert s[1..][i] == s[i + 1] && s[1..][j] == s[j + 1];
        }
      }
      NoDupCount(s[1..], x);
      if x == s[0] {
        assert x !in s[1..];
      }
    }
  }

  /** Appending one byte to the input raises the sum by the number of times that
      byte is listed. */
  lemma {:induction false} CountSumSnoc(s: seq<Byte>, x: Byte, order: seq<Byte>)
    ensures CountSum(s + [x], order) == CountSum(s, order) + multiset(order)[x]
  {
    if order != [] {
      CountSumSnoc(s, x, order[1..]);
      assert order == [order[0]] + order[1..];
    }
  }

  /** Listing each byte once, the occurrence counts add up to the input length. */
  lemma {:induction false} CountSumIsLength(s: seq<Byte>, order: seq<Byte>)
    requires NoDup(order)
    requires forall b :: b in s ==> b in order
    ensures CountSum(s, order) == |s|
    decreases |s|
  {
    if s == [] {
      CountSumEmpty(order);
    } else {
      var s', x := s[..|s| - 1], s[|s| - 1];
      assert s == s' + [x];
      CountSumIsLength(s', order);
      CountSumSnoc(s', x, order);
      NoDupCount(order, x);
    }
  }

  lemma {:induction false} CountSumEmpty(order: seq<Byte>)
    ensures CountSum([], order) == 0
  {
    if order != [] {
      CountSumEmpty(order[1..]);
    }
  }

  /** The table's counts, visited in any enumeration order of its keys, sum to
      the length of the input. */
  lemma {:induction false} FrequenciesSum(s: seq<Byte>, order: seq<Byte>)
    requires IsEnumeration(order, Frequencies(s))
    ensures SumOver(Frequencies(s), order) == |s|
  {
    SumOverIsCountSum(s, order);
    CountSumIsLength(s, order);
  }

  lemma {:induction false} SumOverIsCountSum(s: seq<Byte>, order: seq<Byte>)
    requires forall b :: b in order ==> b in Frequencies(s)
    ensures SumOver(Frequencies(s), order) == CountSum(s, order)
  {
    if order != [] {
      assert order[0] in order;
      SumOverIsCountSum(s, order[1..]);
    }
  }
}
