/** The `Huffman` object of h7/src/Huffman.java: construction from the source
    data, `bitLength`, and encoding and decoding over bit sequences. The byte
    packing the source performs is modelled separately, in `HuffmanPacking`. */
module HuffmanCodec {
  import opened Wrappers
  import opened HuffmanTree
  import opened HuffmanFrequencies
  import opened HuffmanBuild
  import opened HuffmanCodes

  datatype HuffmanError =
    | UnknownSymbol(b: Byte)  // a byte with no entry in the code table
    | NullNode                // the decoder steps into a missing child

  /** The fields of a constructed `Huffman`. `order` is the iteration order of
      the frequency table's entries, which the source leaves to `HashMap`. */
  datatype Huffman = Huffman(
    freqs: map<Byte, nat>,
    order: seq<Byte>,
    tree: Option<Tree>,
    codes: map<Byte, seq<Bit>>)

  /** The constructor: count, build the tree, derive the codes. */
  function NewHuffman(original: seq<Byte>, order: seq<Byte>): (h: Huffman)
    requires IsEnumeration(order, Frequencies(original))
    ensures h.tree.None? <==> original == []
    ensures h.tree.Some? ==>
              && WellFormed(h.tree.value)
              && UniqueLeaves(h.tree.value)
              && h.tree.value.w == |original|
              && (forall b :: b in LeafSyms(h.tree.value) <==> b in original)
    ensures forall b :: b in h.codes <==> b in original
    ensures forall b | b in h.codes :: h.codes[b] != []
  {
    var freqs := Frequencies(original);
    var tree := BuildHuffmanTree(freqs, order);
    FrequenciesSum(original, order);
    var codes := CodeTable(tree);
    NonEmptyCodes(tree);
    Huffman(freqs, order, tree, codes)
  }

  /** Every code of a table is non-empty; a lone leaf gets "0". */
  lemma NonEmptyCodes(t: Option<Tree>)
    ensures forall b | b in CodeTable(t) :: CodeTable(t)[b] != []
  {
    if t.Some? && t.value.Internal? {
      forall b | b in CodeTable(t) ensures CodeTable(t)[b] != [] {
        assert Reaches(t.value, CodeTable(t)[b], b);
      }
    }
  }

  /** Sum of frequency times code length over the listed symbols. */
  function WeightedSum(freqs: map<Byte, nat>, codes: map<Byte, seq<Bit>>, order: seq<Byte>): nat
    requires forall b | b in order :: b in freqs && b in codes
  {
    if order == [] then 0
    else freqs[order[0]] * |codes[order[0]]| + WeightedSum(freqs, codes, order[1..])
  }

  /** `bitLength()`: frequency times code length, summed over the table. */
  function BitLength(h: Huffman): nat
    requires forall b | b in h.order :: b in h.freqs && b in h.codes
  {
    WeightedSum(h.freqs, h.codes, h.order)
  }

  /** An empty table gives a `bitLength()` of 0, every entry's share is part
      of it, and with positive counts and non-empty codes each entry adds at
      least one bit. */
  lemma BitLengthBounds(h: Huffman)
    requires forall b | b in h.order :: b in h.freqs && b in h.codes
    ensures h.order == [] ==> BitLength(h) == 0
    ensures forall b | b in h.order :: h.freqs[b] * |h.codes[b]| <= BitLength(h)
    ensures (forall b | b in h.order :: h.freqs[b] > 0 && h.codes[b] != []) ==> |h.order| <= BitLength(h)
  {
    WeightedSumBounds(h.freqs, h.codes, h.order);
  }

  lemma {:induction false} WeightedSumBounds(freqs: map<Byte, nat>, codes: map<Byte, seq<Bit>>, order: seq<Byte>)
    requires forall b | b in order :: b in freqs && b in codes
    ensures forall b | b in order :: freqs[b] * |codes[b]| <= WeightedSum(freqs, codes, order)
    ensures (forall b | b in order :: freqs[b] > 0 && codes[b] != []) ==> |order| <= WeightedSum(freqs, codes, order)
  {
    if order != [] {
      WeightedSumBounds(freqs, codes, order[1..]);
      assert forall b | b in order :: b == order[0] || b in order[1..];
    }
  }

  /** Encoding as concatenation of the input's codes, in input order; a byte
      without a code is an error. */
  function Encode(codes: map<Byte, seq<Bit>>, data: seq<Byte>): (r: Result<seq<Bit>, HuffmanError>)
    ensures r.Success? <==> forall b | b in data :: b in codes
    ensures r.Failure? ==> r.error.UnknownSymbol? && r.error.b in data && r.error.b !in codes
  {
    if data == [] then Success([])
    else if data[0] !in codes then Failure(UnknownSymbol(data[0]))
    else
      match Encode(codes, data[1..])
      case Failure(e) => Failure(e)
      case Success(rest) => Success(codes[data[0]] + rest)
  }

  /** The decoding loop from node `cur`: a 1 goes right, a 0 goes left, and on
      reaching a leaf its symbol is emitted and the walk restarts at the root.
      Bits left over inside an internal node are dropped. */
  function Walk(root: Tree, cur: Tree, bits: seq<Bit>): (r: seq<Byte>)
    requires root.Internal? && cur.Internal?
    requires forall x | x in LeafSyms(cur) :: x in LeafSyms(root)
    ensures |r| <= |bits|
    ensures forall x | x in r :: x in LeafSyms(root)
    decreases |bits|
  {
    if bits == [] then []
    else
      var next := if bits[0] == 1 then cur.right else cur.left;
      assert LeafSyms(cur) == LeafSyms(cur.left) + LeafSyms(cur.right);
      if next.Leaf? then
        assert next.sym in LeafSyms(next);
        [next.sym] + Walk(root, root, bits[1..])
      else Walk(root, next, bits[1..])
  }

  /** `decode`: walk from the root. With no tree (empty source data), or a
      tree that is a single leaf, the first bit steps into a missing child. */
  function Decode(tree: Option<Tree>, bits: seq<Bit>): (r: Result<seq<Byte>, HuffmanError>)
    ensures r.Failure? <==> bits != [] && (tree.None? || tree.value.Leaf?)
    ensures r.Failure? ==> r.error == NullNode
    ensures bits == [] ==> r == Success([])
  {
    match tree
    case None => if bits == [] then Success([]) else Failure(NullNode)
    case Some(root) =>
      if root.Leaf? then (if bits == [] then Success([]) else Failure(NullNode))
      else Success(Walk(root, root, bits))
  }

  /** Reading a symbol's path from node `cur` emits that symbol and leaves the
      walk at the root for what follows. */
  lemma {:induction false} WalkPath(root: Tree, cur: Tree, p: seq<Bit>, s: Byte, rest: seq<Bit>)
    requires root.Internal? && cur.Internal?
    requires forall x | x in LeafSyms(cur) :: x in LeafSyms(root)
    requires Reaches(cur, p, s)
    ensures Walk(root, cur, p + rest) == [s] + Walk(root, root, rest)
    decreases |p|
  {
    var next := if p[0] == 1 then cur.right else cur.left;
    assert (p + rest)[0] == p[0];
    assert (p + rest)[1..] == p[1..] + rest;
    assert Follow(cur, p) == Follow(next, p[1..]);
    if next.Leaf? {
      assert p[1..] == [];
      assert p[1..] + rest == rest;
    } else {
      WalkPath(root, next, p[1..], s, rest);
    }
  }

  /** A path that stops inside an internal node emits nothing. */
  lemma {:induction false} WalkPartial(root: Tree, cur: Tree, p: seq<Bit>)
    requires root.Internal? && cur.Internal?
    requires forall x | x in LeafSyms(cur) :: x in LeafSyms(root)
    requires Follow(cur, p).Some? && Follow(cur, p).value.Internal?
    ensures Walk(root, cur, p) == []
    decreases |p|
  {
    if p != [] {
      WalkPartial(root, if p[0] == 1 then cur.right else cur.left, p[1..]);
    }
  }

  /** Decoding the concatenated codes of `data`, followed by bits that end
      inside an internal node, gives back `data`: the trailing bits are
      silently dropped. */
  lemma {:induction false} WalkEncoded(root: Tree, data: seq<Byte>, tail: seq<Bit>)
    requires root.Internal?
    requires forall b | b in data :: b in CodeTable(Some(root))
    requires Follow(root, tail).Some? && Follow(root, tail).value.Internal?
    ensures Walk(root, root, Encode(CodeTable(Some(root)), data).value + tail) == data
  {
    var codes := CodeTable(Some(root));
    if data == [] {
      assert Encode(codes, data).value + tail == tail;
      WalkPartial(root, root, tail);
    } else {
      var rest := Encode(codes, data[1..]).value;
      assert Encode(codes, data).value == codes[data[0]] + rest;
      assert codes[data[0]] + rest + tail == codes[data[0]] + (rest + tail);
      WalkPath(root, root, codes[data[0]], data[0], rest + tail);
      WalkEncoded(root, data[1..], tail);
    }
  }

  /** Round trip for a tree with at least two leaves: decoding the encoding of
      any data over the tree's symbols returns that data. */
  lemma DecodeEncode(root: Tree, data: seq<Byte>)
    requires root.Internal?
    requires forall b | b in data :: b in CodeTable(Some(root))
    ensures Decode(Some(root), Encode(CodeTable(Some(root)), data).value) == Success(data)
  {
    WalkEncoded(root, data, []);
    assert Encode(CodeTable(Some(root)), data).value + [] == Encode(CodeTable(Some(root)), data).value;
  }

  /** Bits that stop inside an internal node are dropped without an error. */
  lemma DecodeDropsTrailing(root: Tree, data: seq<Byte>, tail: seq<Bit>)
    requires root.Internal?
    requires forall b | b in data :: b in CodeTable(Some(root))
    requires Follow(root, tail).Some? && Follow(root, tail).value.Internal?
    ensures Decode(Some(root), Encode(CodeTable(Some(root)), data).value + tail) == Success(data)
  {
    WalkEncoded(root, data, tail);
  }

  /** Sum over the listed symbols of occurrences in `s` times code length. */
  function WeightedCount(s: seq<Byte>, codes: map<Byte, seq<Bit>>, order: seq<Byte>): nat
    requires forall b | b in order :: b in codes
  {
    if order == [] then 0
    else multiset(s)[order[0]] * |codes[order[0]]| + WeightedCount(s, codes, order[1..])
  }

  lemma {:induction false} WeightedCountCons(x: Byte, s: seq<Byte>, codes: map<Byte, seq<Bit>>, order: seq<Byte>)
    requires forall b | b in order :: b in codes
    requires x in codes
    ensures WeightedCount([x] + s, codes, order) ==
              WeightedCount(s, codes, order) + multiset(order)[x] * |codes[x]|
  {
    if order != [] {
      var o := order[0];
      WeightedCountCons(x, s, codes, order[1..]);
      var e := if o == x then 1 else 0;
      assert multiset(order)[x] == e + multiset(order[1..])[x] by {
        assert order == [o] + order[1..];
      }
      assert multiset([x] + s)[o] == multiset(s)[o] + e;
      Distribute(multiset(s)[o], e, |codes[o]|);
      Distribute(e, multiset(order[1..])[x], |codes[x]|);
      assert e * |codes[o]| == e * |codes[x]|;
    }
  }

  lemma Distribute(a: nat, b: nat, n: nat)
    ensures (a + b) * n == a * n + b * n
  {
  }

  lemma {:induction false} WeightedCountEmpty(codes: map<Byte, seq<Bit>>, order: seq<Byte>)
    requires forall b | b in order :: b in codes
    ensures WeightedCount([], codes, order) == 0
  {
    if order != [] {
      WeightedCountEmpty(codes, order[1..]);
    }
  }

  /** With every byte of `s` listed exactly once, the weighted count is the
      length of the encoding. */
  lemma {:induction false} WeightedCountIsEncodedLength(s: seq<Byte>, codes: map<Byte, seq<Bit>>, order: seq<Byte>)
    requires NoDup(order)
    requires forall b | b in order :: b in codes
    requires forall b | b in s :: b in order
    ensures Encode(codes, s).Success?
    ensures WeightedCount(s, codes, order) == |Encode(codes, s).value|
  {
    if s == [] {
      WeightedCountEmpty(codes, order);
    } else {
      assert s == [s[0]] + s[1..];
      WeightedCountIsEncodedLength(s[1..], codes, order);
      WeightedCountCons(s[0], s[1..], codes, order);
      NoDupCount(order, s[0]);
    }
  }

  lemma {:induction false} WeightedSumIsCount(s: seq<Byte>, codes: map<Byte, seq<Bit>>, order: seq<Byte>)
    requires forall b | b in order :: b in Frequencies(s) && b in codes
    ensures WeightedSum(Frequencies(s), codes, order) == WeightedCount(s, codes, order)
  {
    if order != [] {
      assert order[0] in order;
      WeightedSumIsCount(s, codes, order[1..]);
    }
  }

  /** `bitLength()` is the number of bits in the encoding of the source data. */
  lemma BitLengthIsEncodedLength(original: seq<Byte>, order: seq<Byte>)
    requires IsEnumeration(order, Frequencies(original))
    ensures Encode(NewHuffman(original, order).codes, original).Success?
    ensures BitLength(NewHuffman(original, order)) ==
              |Encode(NewHuffman(original, order).codes, original).value|
  {
    var h := NewHuffman(original, order);
    WeightedSumIsCount(original, h.codes, order);
    WeightedCountIsEncodedLength(original, h.codes, order);
  }

  /** Two positions holding different bytes make at least two table entries,
      so the built tree is internal. */
  lemma TwoSymbolsInternal(original: seq<Byte>, order: seq<Byte>, i: nat, j: nat)
    requires IsEnumeration(order, Frequencies(original))
    requires i < |original| && j < |original| && original[i] != original[j]
    ensures NewHuffman(original, order).tree.Some?
    ensures NewHuffman(original, order).tree.value.Internal?
  {
    assert original[i] in order && original[j] in order;
  }

  /** The end-to-end round trip over bits: for source data with at least two
      distinct bytes (or none), decoding the encoding with the object's own tree
      returns the data. */
  lemma HuffmanRoundTrip(original: seq<Byte>, order: seq<Byte>)
    requires IsEnumeration(order, Frequencies(original))
    requires original == [] || exists i, j | 0 <= i < |original| && 0 <= j < |original| :: original[i] != original[j]
    ensures Encode(NewHuffman(original, order).codes, original).Success?
    ensures Decode(NewHuffman(original, order).tree,
                   Encode(NewHuffman(original, order).codes, original).value) == Success(original)
  {
    var h := NewHuffman(original, order);
    if original != [] {
      var i, j :| 0 <= i < |original| && 0 <= j < |original| && original[i] != original[j];
      TwoSymbolsInternal(original, order, i, j);
      DecodeEncode(h.tree.value, original);
    }
  }

  /** With a single distinct byte the tree is one leaf whose code is "0"; the
      source's decoder then steps into the leaf's missing child. */
  lemma SingleSymbolDecodeFails(original: seq<Byte>, order: seq<Byte>)
    requires IsEnumeration(order, Frequencies(original))
    requires original != [] && forall k | 0 <= k < |original| :: original[k] == original[0]
    ensures NewHuffman(original, order).codes == map[original[0] := [0]]
    ensures |Encode(NewHuffman(original, order).codes, original).value| == |original|
    ensures Decode(NewHuffman(original, order).tree,
                   Encode(NewHuffman(original, order).codes, original).value) == Failure(NullNode)
  {
    SingleSymbolOrder(original, order);
    var h := NewHuffman(original, order);
    assert h.tree == Some(Leaf(original[0], h.freqs[original[0]]));
    BitLengthIsEncodedLength(original, order);
    assert BitLength(h) == h.freqs[original[0]] * 1 + WeightedSum(h.freqs, h.codes, order[1..]);
    assert h.freqs[original[0]] == multiset(original)[original[0]];
    assert multiset(original)[original[0]] == |original| by {
      AllSameCount(original);
    }
  }

  /** A table built from one repeated byte has that byte as its only entry. */
  lemma SingleSymbolOrder(original: seq<Byte>, order: seq<Byte>)
    requires IsEnumeration(order, Frequencies(original))
    requires original != [] && forall k | 0 <= k < |original| :: original[k] == original[0]
    ensures order == [original[0]]
  {
    var c := original[0];
    var m := Frequencies(original);
    assert c in original;
    assert c in m;
    assert c in order;
    forall k | 0 <= k < |order| ensures order[k] == c {
      assert order[k] in m;
      assert order[k] in original;
      var n :| 0 <= n < |original| && original[n] == order[k];
    }
    AllSameCount(order);
    NoDupCount(order, order[0]);
  }

  lemma {:induction false} AllSameCount(s: seq<Byte>)
    requires s != [] && forall k | 0 <= k < |s| :: s[k] == s[0]
    ensures multiset(s)[s[0]] == |s|
  {
    if |s| > 1 {
      assert s == [s[0]] + s[1..];
      AllSameCount(s[1..]);
    }
  }
}
