/** Greedy Huffman tree construction (h7/src/Huffman.java, `buildHuffmanTree`).
    The `PriorityQueue<Node>` is a sequence of trees: `add` appends, and `poll`
    removes the first tree of least weight. The JDK's tie-breaking among equal
    weights is not specified; this model fixes "earliest in the queue". */
module HuffmanBuild {
  import opened Wrappers
  import opened HuffmanTree
  import opened HuffmanFrequencies

  /** Total weight of the trees in the queue. */
  function QueueWeight(q: seq<Tree>): nat
  {
    if q == [] then 0 else q[0].w + QueueWeight(q[1..])
  }

  /** The leaf symbols of every tree in the queue, in queue order. */
  function QueueSyms(q: seq<Tree>): seq<Byte>
  {
    if q == [] then [] else LeafSyms(q[0]) + QueueSyms(q[1..])
  }

  lemma {:induction false} QueueAppend(a: seq<Tree>, b: seq<Tree>)
    ensures QueueWeight(a + b) == QueueWeight(a) + QueueWeight(b)
    ensures QueueSyms(a + b) == QueueSyms(a) + QueueSyms(b)
  {
    WeightAppend(a, b);
    SymsAppend(a, b);
  }

  lemma {:induction false} WeightAppend(a: seq<Tree>, b: seq<Tree>)
    ensures QueueWeight(a + b) == QueueWeight(a) + QueueWeight(b)
  {
    if a != [] {
      assert (a + b)[0] == a[0];
      assert (a + b)[1..] == a[1..] + b;
      WeightAppend(a[1..], b);
    } else {
      assert a + b == b;
    }
  }

  lemma {:induction false} SymsAppend(a: seq<Tree>, b: seq<Tree>)
    ensures QueueSyms(a + b) == QueueSyms(a) + QueueSyms(b)
  {
    if a != [] {
      assert (a + b)[0] == a[0];
      assert (a + b)[1..] == a[1..] + b;
      SymsAppend(a[1..], b);
      assert QueueSyms(a + b) == LeafSyms(a[0]) + QueueSyms(a[1..] + b);
    } else {
      assert a + b == b;
    }
  }

  lemma QueueSingle(t: Tree)
    ensures QueueWeight([t]) == t.w
    ensures QueueSyms([t]) == LeafSyms(t)
  {
    assert [t][1..] == [];
  }

  /** Index of the first tree of least weight. */
  function MinIndex(q: seq<Tree>): (i: nat)
    requires q != []
    ensures i < |q|
    ensures forall k | 0 <= k < |q| :: q[i].w <= q[k].w
    ensures forall k | 0 <= k < i :: q[k].w > q[i].w
  {
    if |q| == 1 then 0
    else
      var j := MinIndex(q[1..]);
      if q[0].w <= q[1..][j].w then 0 else j + 1
  }

  /** `poll()`: remove and return a lightest tree of the queue. */
  function Poll(q: seq<Tree>): (r: (Tree, seq<Tree>))
    requires q != []
    ensures |r.1| == |q| - 1
    ensures forall k | 0 <= k < |q| :: r.0.w <= q[k].w
  {
    var i := MinIndex(q);
    (q[i], q[..i] + q[i + 1..])
  }

  /** What `poll()` takes out is a lightest tree of the queue, and the weight
      and the symbols of the queue are split between it and the rest. */
  lemma PollFacts(q: seq<Tree>)
    requires q != []
    ensures Poll(q).0 in q && forall t | t in Poll(q).1 :: t in q
    ensures forall k | 0 <= k < |q| :: Poll(q).0.w <= q[k].w
    ensures QueueWeight(q) == Poll(q).0.w + QueueWeight(Poll(q).1)
    ensures multiset(QueueSyms(q)) == multiset(LeafSyms(Poll(q).0)) + multiset(QueueSyms(Poll(q).1))
  {
    var i := MinIndex(q);
    SplitFacts(q, i);
  }

  /** Taking the tree at `i` out of the queue splits its weight and symbols. */
  lemma SplitFacts(q: seq<Tree>, i: nat)
    requires i < |q|
    ensures var rest := q[..i] + q[i + 1..];
            && q[i] in q && (forall t | t in rest :: t in q)
            && QueueWeight(q) == q[i].w + QueueWeight(rest)
            && multiset(QueueSyms(q)) == multiset(LeafSyms(q[i])) + multiset(QueueSyms(rest))
  {
    assert q == q[..i] + [q[i]] + q[i + 1..];
    QueueAppend(q[..i] + [q[i]], q[i + 1..]);
    QueueAppend(q[..i], [q[i]]);
    QueueAppend(q[..i], q[i + 1..]);
    QueueSingle(q[i]);
  }

  /** One iteration of the construction loop: poll the two lightest trees and
      add the internal node joining them, first-polled on the left. */
  function MergeStep(q: seq<Tree>): (r: seq<Tree>)
    requires |q| >= 2
    ensures |r| == |q| - 1
  {
    var p1 := Poll(q);
    var p2 := Poll(p1.1);
    p2.1 + [Internal(p1.0, p2.0, p1.0.w + p2.0.w)]
  }

  /** The merge joins the two lightest trees into one node at the back of the
      queue, keeping the total weight and the symbols. */
  lemma MergeFacts(q: seq<Tree>)
    requires |q| >= 2
    ensures var r := MergeStep(q);
            && r[|r| - 1].Internal?
            && var a, b := r[|r| - 1].left, r[|r| - 1].right;
            && r[|r| - 1].w == a.w + b.w
            && (forall k | 0 <= k < |q| :: a.w <= q[k].w)
            && a.w <= b.w
            && (forall k | 0 <= k < |r| - 1 :: b.w <= r[k].w)
            && multiset(r[..|r| - 1]) + multiset{a, b} == multiset(q)
    ensures QueueWeight(MergeStep(q)) == QueueWeight(q)
    ensures multiset(QueueSyms(MergeStep(q))) == multiset(QueueSyms(q))
  {
    MergeOrder(q);
    MergeSumsKept(q);
  }

  /** The two polled trees are the lightest, and together with what is left
      they are the trees of the queue. */
  lemma MergeOrder(q: seq<Tree>)
    requires |q| >= 2
    ensures var r := MergeStep(q);
            && r[|r| - 1].Internal?
            && var a, b := r[|r| - 1].left, r[|r| - 1].right;
            && r[|r| - 1].w == a.w + b.w
            && (forall k | 0 <= k < |q| :: a.w <= q[k].w)
            && a.w <= b.w
            && (forall k | 0 <= k < |r| - 1 :: b.w <= r[k].w)
            && multiset(r[..|r| - 1]) + multiset{a, b} == multiset(q)
  {
    var p1 := Poll(q);
    var p2 := Poll(p1.1);
    var a, b, q2 := p1.0, p2.0, p2.1;
    MergeIs(q, a, p1.1, b, q2);
    MergeTrees(q, p1.1, q2, a, b);
    MergeLightest(q, p1.1, q2, a, b);
    MergeShape(q, q2, a, b, MergeStep(q));
  }

  /** The merge keeps the total weight and the symbols of the queue. */
  lemma MergeSumsKept(q: seq<Tree>)
    requires |q| >= 2
    ensures QueueWeight(MergeStep(q)) == QueueWeight(q)
    ensures multiset(QueueSyms(MergeStep(q))) == multiset(QueueSyms(q))
  {
    var p1 := Poll(q);
    var p2 := Poll(p1.1);
    PolledSums(q, p1.0, p1.1, p2.0, p2.1, MergeStep(q));
  }

  /** After polls that took `a` then `b`, the merged queue keeps the weight
      and the symbols. */
  lemma PolledSums(q: seq<Tree>, a: Tree, q1: seq<Tree>, b: Tree, q2: seq<Tree>, r: seq<Tree>)
    requires |q| >= 2 && Poll(q) == (a, q1) && Poll(q1) == (b, q2) && r == MergeStep(q)
    ensures QueueWeight(r) == QueueWeight(q)
    ensures multiset(QueueSyms(r)) == multiset(QueueSyms(q))
  {
    MergeIs(q, a, q1, b, q2);
    PollFacts(q);
    PollFacts(q1);
    MergeSums(q, q1, q2, a, b);
  }

  /** A merge polls twice and adds the joined tree at the back. */
  lemma MergeIs(q: seq<Tree>, a: Tree, q1: seq<Tree>, b: Tree, q2: seq<Tree>)
    requires |q| >= 2 && Poll(q) == (a, q1) && Poll(q1) == (b, q2)
    ensures MergeStep(q) == q2 + [Internal(a, b, a.w + b.w)]
  {
  }

  /** The queue `q2` with the node joining `a` and `b` at its back. */
  lemma MergeShape(q: seq<Tree>, q2: seq<Tree>, a: Tree, b: Tree, r: seq<Tree>)
    requires r == q2 + [Internal(a, b, a.w + b.w)]
    requires forall k | 0 <= k < |q| :: a.w <= q[k].w
    requires a.w <= b.w && forall k | 0 <= k < |q2| :: b.w <= q2[k].w
    requires multiset(q2) + multiset{a, b} == multiset(q)
    ensures r[|r| - 1].Internal?
    ensures var a, b := r[|r| - 1].left, r[|r| - 1].right;
            && r[|r| - 1].w == a.w + b.w
            && (forall k | 0 <= k < |q| :: a.w <= q[k].w)
            && a.w <= b.w
            && (forall k | 0 <= k < |r| - 1 :: b.w <= r[k].w)
            && multiset(r[..|r| - 1]) + multiset{a, b} == multiset(q)
  {
    assert r[..|r| - 1] == q2;
  }

  lemma MergeSums(q: seq<Tree>, q1: seq<Tree>, q2: seq<Tree>, a: Tree, b: Tree)
    requires QueueWeight(q) == a.w + QueueWeight(q1) && QueueWeight(q1) == b.w + QueueWeight(q2)
    requires multiset(QueueSyms(q)) == multiset(LeafSyms(a)) + multiset(QueueSyms(q1))
    requires multiset(QueueSyms(q1)) == multiset(LeafSyms(b)) + multiset(QueueSyms(q2))
    ensures QueueWeight(q2 + [Internal(a, b, a.w + b.w)]) == QueueWeight(q)
    ensures multiset(QueueSyms(q2 + [Internal(a, b, a.w + b.w)])) == multiset(QueueSyms(q))
  {
    MergeWeight(QueueWeight(q), QueueWeight(q1), q2, a, b);
    MergeSyms(multiset(QueueSyms(q)), multiset(QueueSyms(q1)), q2, a, b);
  }

  lemma MergeWeight(wq: nat, wq1: nat, q2: seq<Tree>, a: Tree, b: Tree)
    requires wq == a.w + wq1 && wq1 == b.w + QueueWeight(q2)
    ensures QueueWeight(q2 + [Internal(a, b, a.w + b.w)]) == wq
  {
    var n := Internal(a, b, a.w + b.w);
    WeightAppend(q2, [n]);
    QueueSingle(n);
  }

  lemma MergeSyms(mq: multiset<Byte>, mq1: multiset<Byte>, q2: seq<Tree>, a: Tree, b: Tree)
    requires mq == multiset(LeafSyms(a)) + mq1 && mq1 == multiset(LeafSyms(b)) + multiset(QueueSyms(q2))
    ensures multiset(QueueSyms(q2 + [Internal(a, b, a.w + b.w)])) == mq
  {
    var n := Internal(a, b, a.w + b.w);
    SymsAppend(q2, [n]);
    QueueSingle(n);
    assert LeafSyms(n) == LeafSyms(a) + LeafSyms(b);
    MultisetRegroup(multiset(LeafSyms(a)), multiset(LeafSyms(b)), multiset(QueueSyms(q2)));
  }

  lemma MultisetRegroup(A: multiset<Byte>, B: multiset<Byte>, C: multiset<Byte>)
    ensures C + (A + B) == A + (B + C)
  {
  }

  lemma MergeTrees(q: seq<Tree>, q1: seq<Tree>, q2: seq<Tree>, a: Tree, b: Tree)
    requires |q| >= 2 && Poll(q) == (a, q1) && Poll(q1) == (b, q2)
    ensures multiset(q2) + multiset{a, b} == multiset(q)
  {
    PollMultiset(q);
    PollMultiset(q1);
  }

  lemma MergeLightest(q: seq<Tree>, q1: seq<Tree>, q2: seq<Tree>, a: Tree, b: Tree)
    requires |q| >= 2 && Poll(q) == (a, q1) && Poll(q1) == (b, q2)
    ensures forall k | 0 <= k < |q| :: a.w <= q[k].w
    ensures a.w <= b.w
    ensures forall k | 0 <= k < |q2| :: b.w <= q2[k].w
  {
    PollFacts(q);
    PollFacts(q1);
    forall k | 0 <= k < |q2| ensures b.w <= q2[k].w {
      assert q2[k] in q1;
    }
    assert b in q;
  }

  lemma PollMultiset(q: seq<Tree>)
    requires q != []
    ensures multiset(q) == multiset{Poll(q).0} + multiset(Poll(q).1)
  {
    var i := MinIndex(q);
    assert q == q[..i] + [q[i]] + q[i + 1..];
  }

  /** The construction loop: merge until at most one tree is left, then poll it
      (None when the queue was empty, as `poll()` returns null). */
  function Combine(q: seq<Tree>): (t: Option<Tree>)
    ensures t.None? <==> q == []
    ensures |q| == 1 ==> t == Some(q[0])
    ensures |q| >= 2 ==> t.Some? && t.value.Internal?
    ensures t.Some? ==> t.value.w == QueueWeight(q)
    ensures t.Some? ==> multiset(LeafSyms(t.value)) == multiset(QueueSyms(q))
    ensures t.Some? && (forall k | 0 <= k < |q| :: WellFormed(q[k])) ==> WellFormed(t.value)
    decreases |q|
  {
    if |q| == 0 then None
    else if |q| == 1 then
      QueueSingle(q[0]);
      Some(q[0])
    else
      var r := MergeStep(q);
      MergeFacts(q);
      MergeKeepsWellFormed(q, r);
      Combine(r)
  }

  lemma MergeKeepsWellFormed(q: seq<Tree>, r: seq<Tree>)
    requires |q| >= 2 && r == MergeStep(q)
    ensures (forall k | 0 <= k < |q| :: WellFormed(q[k])) ==> forall k | 0 <= k < |r| :: WellFormed(r[k])
  {
    MergeFacts(q);
    if forall k | 0 <= k < |q| :: WellFormed(q[k]) {
      var n := r[|r| - 1];
      assert multiset(r[..|r| - 1]) + multiset{n.left, n.right} == multiset(q);
      forall t | t in multiset(q) ensures WellFormed(t) {
        var k :| 0 <= k < |q| && q[k] == t;
      }
      forall k | 0 <= k < |r| ensures WellFormed(r[k]) {
        if k < |r| - 1 {
          assert r[k] in multiset(r[..|r| - 1]);
        } else {
          assert n.left in multiset(q) && n.right in multiset(q);
        }
      }
    }
  }

  /** One leaf per table entry, in the table's iteration order. */
  function LeafQueue(freqs: map<Byte, nat>, order: seq<Byte>): (q: seq<Tree>)
    requires forall k | 0 <= k < |order| :: order[k] in freqs
    ensures |q| == |order|
    ensures forall k | 0 <= k < |q| :: q[k] == Leaf(order[k], freqs[order[k]])
  {
    if order == [] then [] else [Leaf(order[0], freqs[order[0]])] + LeafQueue(freqs, order[1..])
  }

  lemma {:induction false} LeafQueueSums(freqs: map<Byte, nat>, order: seq<Byte>)
    requires forall k | 0 <= k < |order| :: order[k] in freqs
    ensures QueueWeight(LeafQueue(freqs, order)) == SumOver(freqs, order)
    ensures QueueSyms(LeafQueue(freqs, order)) == order
  {
    LeafQueueWeight(freqs, order);
    LeafQueueSyms(freqs, order);
  }

  lemma {:induction false} LeafQueueWeight(freqs: map<Byte, nat>, order: seq<Byte>)
    requires forall k | 0 <= k < |order| :: order[k] in freqs
    ensures QueueWeight(LeafQueue(freqs, order)) == SumOver(freqs, order)
  {
    if order != [] {
      var q := LeafQueue(freqs, order);
      assert q[1..] == LeafQueue(freqs, order[1..]);
      LeafQueueWeight(freqs, order[1..]);
    }
  }

  lemma {:induction false} LeafQueueSyms(freqs: map<Byte, nat>, order: seq<Byte>)
    requires forall k | 0 <= k < |order| :: order[k] in freqs
    ensures QueueSyms(LeafQueue(freqs, order)) == order
  {
    if order != [] {
      var rest := order[1..];
      var x, r := Leaf(order[0], freqs[order[0]]), LeafQueue(freqs, rest);
      assert LeafQueue(freqs, order) == [x] + r;
      SymsAppend([x], r);
      QueueSingle(x);
      LeafQueueSyms(freqs, rest);
      assert order == [order[0]] + rest;
    }
  }

  /** A tree whose symbol multiset has no repeated element labels each leaf
      with a different symbol. */
  lemma {:induction false} UniqueFromMultiset(t: Tree)
    requires forall x :: multiset(LeafSyms(t))[x] <= 1
    ensures UniqueLeaves(t)
  {
    match t
    case Leaf(_, _) =>
    case Internal(l, r, _) =>
      assert multiset(LeafSyms(t)) == multiset(LeafSyms(l)) + multiset(LeafSyms(r));
      assert forall x :: multiset(LeafSyms(l))[x] <= 1 by {
        forall x ensures multiset(LeafSyms(l))[x] <= 1 {
          assert multiset(LeafSyms(t))[x] <= 1;
        }
      }
      assert forall x :: multiset(LeafSyms(r))[x] <= 1 by {
        forall x ensures multiset(LeafSyms(r))[x] <= 1 {
          assert multiset(LeafSyms(t))[x] <= 1;
        }
      }
      UniqueFromMultiset(l);
      UniqueFromMultiset(r);
      forall x | x in LeafSyms(l) ensures x !in LeafSyms(r) {
        assert multiset(LeafSyms(t))[x] <= 1;
      }
  }

  /** `buildHuffmanTree`: a leaf per table entry, then the greedy merge loop. */
  function BuildHuffmanTree(freqs: map<Byte, nat>, order: seq<Byte>): (t: Option<Tree>)
    requires IsEnumeration(order, freqs)
    requires forall b | b in freqs :: freqs[b] >= 1
    ensures t.None? <==> |freqs| == 0
    ensures t.Some? ==>
              && WellFormed(t.value)
              && UniqueLeaves(t.value)
              && t.value.w == SumOver(freqs, order)
              && multiset(LeafSyms(t.value)) == multiset(order)
              && (forall b :: b in LeafSyms(t.value) <==> b in freqs)
    ensures |order| == 1 ==> t == Some(Leaf(order[0], freqs[order[0]]))
    ensures |order| >= 2 ==> t.Some? && t.value.Internal?
  {
    var q := LeafQueue(freqs, order);
    var t := Combine(q);
    BuildShape(freqs, order, q, t);
    BuildContents(freqs, order, q, t);
    t
  }

  /** When the merge loop yields a tree, and which tree it is for one entry. */
  lemma BuildShape(freqs: map<Byte, nat>, order: seq<Byte>, q: seq<Tree>, t: Option<Tree>)
    requires IsEnumeration(order, freqs)
    requires q == LeafQueue(freqs, order) && t == Combine(q)
    ensures t.None? <==> |freqs| == 0
    ensures |order| == 1 ==> t == Some(Leaf(order[0], freqs[order[0]]))
    ensures |order| >= 2 ==> t.Some? && t.value.Internal?
  {
    if |freqs| != 0 {
      var b :| b in freqs;
      assert b in order;
    }
  }

  /** The tree's weight, leaves and shape follow from the queue it came from. */
  lemma BuildContents(freqs: map<Byte, nat>, order: seq<Byte>, q: seq<Tree>, t: Option<Tree>)
    requires IsEnumeration(order, freqs)
    requires forall b | b in freqs :: freqs[b] >= 1
    requires q == LeafQueue(freqs, order) && t == Combine(q)
    ensures t.Some? ==>
              && WellFormed(t.value)
              && UniqueLeaves(t.value)
              && t.value.w == SumOver(freqs, order)
              && multiset(LeafSyms(t.value)) == multiset(order)
              && (forall b :: b in LeafSyms(t.value) <==> b in freqs)
  {
    if t.Some? {
      var tree := t.value;
      BuildSums(freqs, order, q, tree);
      LeavesWellFormed(freqs, order, q);
      DistinctSymbolsUnique(tree, order);
    }
  }

  lemma BuildSums(freqs: map<Byte, nat>, order: seq<Byte>, q: seq<Tree>, tree: Tree)
    requires forall k | 0 <= k < |order| :: order[k] in freqs
    requires q == LeafQueue(freqs, order) && Combine(q) == Some(tree)
    ensures tree.w == SumOver(freqs, order)
    ensures multiset(LeafSyms(tree)) == multiset(order)
  {
    LeafQueueSums(freqs, order);
  }

  lemma LeavesWellFormed(freqs: map<Byte, nat>, order: seq<Byte>, q: seq<Tree>)
    requires forall k | 0 <= k < |order| :: order[k] in freqs && freqs[order[k]] >= 1
    requires q == LeafQueue(freqs, order)
    ensures forall k | 0 <= k < |q| :: WellFormed(q[k])
  {
  }

  /** A tree holding exactly the symbols of a duplicate-free list has one leaf
      per symbol. */
  lemma DistinctSymbolsUnique(t: Tree, order: seq<Byte>)
    requires NoDup(order)
    requires multiset(LeafSyms(t)) == multiset(order)
    ensures UniqueLeaves(t)
    ensures forall x :: x in LeafSyms(t) <==> x in order
  {
    assert forall x :: x in LeafSyms(t) <==> x in multiset(LeafSyms(t));
    forall x ensures multiset(LeafSyms(t))[x] <= 1 {
      NoDupCount(order, x);
    }
    UniqueFromMultiset(t);
  }
}
