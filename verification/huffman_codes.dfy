/** Code generation by root-to-leaf traversal (h7/src/Huffman.java, both
    `createHuffmanCodes` overloads). A code string over '0'/'1' is a sequence
    of bits. */
module HuffmanCodes {
  import opened Wrappers
  import opened HuffmanTree

  /** `p` is a prefix of `q`. */
  predicate IsPrefix(p: seq<Bit>, q: seq<Bit>)
  {
    |p| <= |q| && q[..|p|] == p
  }

  /** `createHuffmanCodes(node, code)`: the left edge appends 0, the right edge
      appends 1, and a leaf records the accumulated code, or "0" when that code
      is still empty (a tree that is a single leaf). The right subtree's entries
      are put after the left's, so on a repeated symbol the right one wins, as
      with `HashMap.put`. */
  function CodesFrom(t: Tree, code: seq<Bit>): (m: map<Byte, seq<Bit>>)
    ensures forall s :: s in m <==> s in LeafSyms(t)
    ensures forall s | s in m :: m[s] != [] && IsPrefix(code, m[s])
  {
    match t
    case Leaf(s, _) => map[s := if code == [] then [0] else code]
    case Internal(l, r, _) =>
      var ml, mr := CodesFrom(l, code + [0]), CodesFrom(r, code + [1]);
      assert forall s | s in mr :: IsPrefix(code, mr[s]) by {
        forall s | s in mr ensures IsPrefix(code, mr[s]) {
          assert mr[s][..|code|] == (code + [1])[..|code|];
        }
      }
      assert forall s | s in ml :: IsPrefix(code, ml[s]) by {
        forall s | s in ml ensures IsPrefix(code, ml[s]) {
          assert ml[s][..|code|] == (code + [0])[..|code|];
        }
      }
      ml + mr
  }

  /** `createHuffmanCodes(Node huffman)`: a fresh table filled from the root;
      an absent tree (empty input) leaves the table empty. */
  function CodeTable(t: Option<Tree>): (m: map<Byte, seq<Bit>>)
    ensures t.None? ==> m == map[]
    ensures t.Some? ==> forall s :: s in m <==> s in LeafSyms(t.value)
    ensures t.Some? && t.value.Leaf? ==> m == map[t.value.sym := [0]]
    ensures t.Some? && t.value.Internal? ==> forall s | s in m :: Reaches(t.value, m[s], s)
  {
    match t
    case None => map[]
    case Some(root) =>
      var m := CodesFrom(root, []);
      if root.Internal? then
        forall s | s in m ensures Reaches(root, m[s], s) {
          CodesReach(root, [], s);
          assert m[s][0..] == m[s];
        }
        m
      else
        m
  }

  /** Each recorded code is the traversal prefix followed by a path from the
      subtree's root to a leaf labelled with that symbol. */
  lemma {:induction false} CodesReach(t: Tree, code: seq<Bit>, s: Byte)
    requires t.Internal? || code != []
    requires s in CodesFrom(t, code)
    ensures Reaches(t, CodesFrom(t, code)[s][|code|..], s)
    decreases t, 1
  {
    match t
    case Leaf(_, _) =>
      assert CodesFrom(t, code)[s][|code|..] == [];
    case Internal(l, r, _) =>
      CodesFromInternal(t, code);
      var ml, mr := CodesFrom(l, code + [0]), CodesFrom(r, code + [1]);
      if s in mr {
        assert CodesFrom(t, code)[s] == mr[s];
        CodesReachChild(t, code, s, 1, r, code + [1]);
      } else {
        assert CodesFrom(t, code)[s] == ml[s];
        CodesReachChild(t, code, s, 0, l, code + [0]);
      }
  }

  /** The step of `CodesReach` through one edge of an internal node: the code
      recorded in the child's table, read from the parent's depth, starts with
      the edge's bit and goes on along the child's path. */
  lemma {:induction false} CodesReachChild(t: Tree, code: seq<Bit>, s: Byte, bit: Bit, child: Tree, cc: seq<Bit>)
    requires t.Internal? && child == (if bit == 0 then t.left else t.right)
    requires cc == code + [bit]
    requires s in CodesFrom(child, cc) && s in CodesFrom(t, code)
    requires CodesFrom(t, code)[s] == CodesFrom(child, cc)[s]
    ensures Reaches(t, CodesFrom(t, code)[s][|code|..], s)
    decreases t, 0
  {
    CodesReach(child, cc, s);
    var c := CodesFrom(child, cc)[s];
    ChildPrefix(child, cc, s);
    var suffix := c[|code|..];
    PrefixStep(code, bit, c);
    assert Follow(t, suffix) == Follow(child, suffix[1..]);
  }

  lemma CodesFromInternal(t: Tree, code: seq<Bit>)
    requires t.Internal?
    ensures CodesFrom(t, code) == CodesFrom(t.left, code + [0]) + CodesFrom(t.right, code + [1])
  {
  }

  lemma ChildPrefix(child: Tree, code: seq<Bit>, s: Byte)
    requires s in CodesFrom(child, code)
    ensures IsPrefix(code, CodesFrom(child, code)[s])
  {
  }

  lemma PrefixStep(code: seq<Bit>, bit: Bit, c: seq<Bit>)
    requires IsPrefix(code + [bit], c)
    ensures |c| > |code| && c[|code|..][0] == bit && c[|code|..][1..] == c[|code| + 1..]
  {
    assert c[|code|] == c[..|code| + 1][|code|];
  }

  /** Codes are prefix-free: no symbol's code is a prefix of another symbol's
      code (in particular, different symbols get different codes). */
  lemma PrefixFree(t: Tree, x: Byte, y: Byte)
    requires x != y
    requires x in CodeTable(Some(t)) && y in CodeTable(Some(t))
    ensures !IsPrefix(CodeTable(Some(t))[x], CodeTable(Some(t))[y])
  {
    var m := CodeTable(Some(t));
    if t.Internal? && IsPrefix(m[x], m[y]) {
      var cx, cy := m[x], m[y];
      assert cy == cx + cy[|cx|..];
      FollowAppend(t, cx, cy[|cx|..]);
    }
  }

  /** When every symbol labels one leaf, the table entry of a symbol is its
      only root-to-leaf path: the code of `s` is exactly the path reaching `s`. */
  lemma {:induction false} PathIsCode(t: Tree, p: seq<Bit>, s: Byte)
    requires t.Internal? && UniqueLeaves(t)
    requires Reaches(t, p, s)
    ensures s in CodeTable(Some(t)) && CodeTable(Some(t))[s] == p
  {
    PathIsCodeFrom(t, [], p, s);
    assert [] + p == p;
  }

  lemma {:induction false} PathIsCodeFrom(t: Tree, code: seq<Bit>, p: seq<Bit>, s: Byte)
    requires t.Internal? || code != []
    requires UniqueLeaves(t) && Reaches(t, p, s)
    ensures s in CodesFrom(t, code) && CodesFrom(t, code)[s] == code + p
    decreases t
  {
    match t
    case Leaf(_, _) =>
      assert p == [];
      assert code + p == code;
    case Internal(l, r, _) =>
      ReachesSide(t, p, s);
      ConsStep(code, p);
      if p[0] == 0 {
        PathIsCodeFrom(l, code + [0], p[1..], s);
        assert s !in CodesFrom(r, code + [1]);
      } else {
        PathIsCodeFrom(r, code + [1], p[1..], s);
      }
  }

  lemma ConsStep(code: seq<Bit>, p: seq<Bit>)
    requires p != []
    ensures code + [p[0]] + p[1..] == code + p
  {
    assert p == [p[0]] + p[1..];
  }
}
