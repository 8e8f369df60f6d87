/** The Huffman code tree (h7/src/Huffman.java, class `Node`): a full binary tree
    whose leaves carry a byte symbol and its frequency and whose internal nodes
    carry the summed frequency of their two children. */
module HuffmanTree {
  import opened Wrappers

  /** A Java `byte`: a signed 8-bit value. */
  type Byte = b: int | -128 <= b < 128

  /** One character of a code string: 0 for '0', 1 for '1'. */
  type Bit = b: int | 0 <= b < 2

  /** The Java node with nullable children becomes an algebraic tree: a leaf has
      no children, an internal node always has both, so the tree is full by
      construction. `w` is the Java field `freq`. */
  datatype Tree =
    | Leaf(sym: Byte, w: nat)
    | Internal(left: Tree, right: Tree, w: nat)

  /** The symbols at the leaves, from left to right. */
  function LeafSyms(t: Tree): seq<Byte>
  {
    match t
    case Leaf(s, _) => [s]
    case Internal(l, r, _) => LeafSyms(l) + LeafSyms(r)
  }

  /** Leaves have positive weight, and each internal node weighs exactly the sum
      of its two children. */
  predicate WellFormed(t: Tree)
  {
    match t
    case Leaf(_, w) => w > 0
    case Internal(l, r, w) => WellFormed(l) && WellFormed(r) && w == l.w + r.w
  }

  /** No symbol labels two different leaves. */
  predicate UniqueLeaves(t: Tree)
  {
    match t
    case Leaf(_, _) => true
    case Internal(l, r, _) =>
      && UniqueLeaves(l)
      && UniqueLeaves(r)
      && (forall x :: x in LeafSyms(l) ==> x !in LeafSyms(r))
  }

  /** The node reached from `t` by following `path` (0 = left, 1 = right);
      None when the path runs on past a leaf. */
  function Follow(t: Tree, path: seq<Bit>): Option<Tree>
    decreases |path|
  {
    if path == [] then Some(t)
    else
      match t
      case Leaf(_, _) => None
      case Internal(l, r, _) => Follow(if path[0] == 0 then l else r, path[1..])
  }

  /** `path` is a root-to-leaf path of `t` ending at a leaf labelled `s`. */
  predicate Reaches(t: Tree, path: seq<Bit>, s: Byte)
  {
    Follow(t, path).Some? && Follow(t, path).value.Leaf? && Follow(t, path).value.sym == s
  }

  /** Following `p + q` is following `p`, then `q` from wherever `p` ended. */
  lemma {:induction false} FollowAppend(t: Tree, p: seq<Bit>, q: seq<Bit>)
    ensures Follow(t, p + q) ==
              (if Follow(t, p).Some? then Follow(Follow(t, p).value, q) else None)
    decreases |p|
  {
    if p == [] {
      assert p + q == q;
    } else {
      match t
      case Leaf(_, _) =>
      case Internal(l, r, _) =>
        assert (p + q)[0] == p[0];
        assert (p + q)[1..] == p[1..] + q;
        FollowAppend(if p[0] == 0 then l else r, p[1..], q);
    }
  }

  /** A symbol reached by a path labels one of the tree's leaves. */
  lemma {:induction false} ReachesIsLeaf(t: Tree, p: seq<Bit>, s: Byte)
    requires Reaches(t, p, s)
    ensures s in LeafSyms(t)
    decreases |p|
  {
    if p != [] {
      match t
      case Internal(l, r, _) =>
        ReachesIsLeaf(if p[0] == 0 then l else r, p[1..], s);
    }
  }

  /** In a tree with a leaf per symbol, a path reaching `s` from the root of
      one subtree cannot pass through the other subtree. */
  lemma {:induction false} ReachesSide(t: Tree, p: seq<Bit>, s: Byte)
    requires t.Internal? && UniqueLeaves(t) && Reaches(t, p, s)
    ensures p != []
    ensures p[0] == 0 <==> s in LeafSyms(t.left)
    ensures p[0] == 1 <==> s in LeafSyms(t.right)
  {
    ReachesIsLeaf(if p[0] == 0 then t.left else t.right, p[1..], s);
  }
}
