/** The demonstration in `main` of h7/src/Huffman.java: the six bytes of
    "ABCDEF" (65 to 70), each occurring once, with the table's entries visited
    in ascending byte order (the order a `HashMap` of small `Byte` keys uses). */
module HuffmanExample {
  import opened Wrappers
  import opened HuffmanTree
  import opened HuffmanFrequencies
  import opened HuffmanBuild
  import opened HuffmanCodes
  import opened HuffmanCodec
  import opened HuffmanPacking

  function Text(): seq<Byte>
  {
    [65, 66, 67, 68, 69, 70]
  }

  function ExampleTree(): Tree
  {
    var ab := Internal(Leaf(65, 1), Leaf(66, 1), 2);
    var cd := Internal(Leaf(67, 1), Leaf(68, 1), 2);
    var ef := Internal(Leaf(69, 1), Leaf(70, 1), 2);
    Internal(ef, Internal(ab, cd, 4), 6)
  }

  function ExampleCodes(): map<Byte, seq<Bit>>
  {
    map[65 := [1, 0, 0], 66 := [1, 0, 1], 67 := [1, 1, 0], 68 := [1, 1, 1], 69 := [0, 0], 70 := [0, 1]]
  }

  /** Each of the six bytes is counted once, and ascending order enumerates
      the table. */
  lemma ExampleFrequencies()
    ensures IsEnumeration(Text(), Frequencies(Text()))
    ensures forall b | b in Frequencies(Text()) :: Frequencies(Text())[b] == 1
  {
    var s, m := Text(), Frequencies(Text());
    assert NoDup(s) by {
      TextDistinct();
    }
    forall b | b in m ensures m[b] == 1 {
      NoDupCount(s, b);
    }
  }

  lemma TextDistinct()
    ensures NoDup(Text())
  {
  }

  /** When the front tree is a lightest one, `poll` takes it. */
  lemma PollHead(a: Tree, rest: seq<Tree>)
    requires forall k | 0 <= k < |rest| :: a.w <= rest[k].w
    ensures Poll([a] + rest) == (a, rest)
  {
    var q := [a] + rest;
    assert forall k | 0 <= k < |q| :: q[0].w <= q[k].w by {
      forall k | 0 <= k < |q| ensures q[0].w <= q[k].w {
        if k > 0 {
          assert q[k] == rest[k - 1];
        }
      }
    }
    assert MinIndex(q) == 0;
    assert q[..0] + q[1..] == rest;
  }

  /** The loop goes on with the queue a merge leaves. */
  lemma CombineStep(q: seq<Tree>, r: seq<Tree>)
    requires |q| >= 2 && MergeStep(q) == r
    ensures Combine(q) == Combine(r)
  {
  }

  /** A merge that polls the two front trees: they are joined at the back,
      and the loop goes on from there. */
  lemma FrontStep(a: Tree, b: Tree, q2: seq<Tree>, r: seq<Tree>)
    requires Poll([a, b] + q2) == (a, [b] + q2) && Poll([b] + q2) == (b, q2)
    requires r == q2 + [Internal(a, b, a.w + b.w)]
    ensures Combine([a, b] + q2) == Combine(r)
  {
    MergeIs([a, b] + q2, a, [b] + q2, b, q2);
    CombineStep([a, b] + q2, r);
  }

  lemma PairFront(a: Tree, b: Tree, q2: seq<Tree>)
    ensures [a] + ([b] + q2) == [a, b] + q2
  {
  }

  /** When the two front trees are the lightest, in that order, `poll` takes
      them in that order. */
  lemma PollPair(a: Tree, b: Tree, q2: seq<Tree>)
    requires a.w <= b.w && forall k | 0 <= k < |q2| :: b.w <= q2[k].w
    ensures Poll([a, b] + q2) == (a, [b] + q2) && Poll([b] + q2) == (b, q2)
  {
    assert forall k | 0 <= k < |[b] + q2| :: a.w <= ([b] + q2)[k].w by {
      forall k | 0 <= k < |[b] + q2| ensures a.w <= ([b] + q2)[k].w {
        if k > 0 {
          assert ([b] + q2)[k] == q2[k - 1];
        }
      }
    }
    PollHead(a, [b] + q2);
    PollHead(b, q2);
    PairFront(a, b, q2);
  }

  /** ... so the merge joins them. */
  lemma FrontRound(a: Tree, b: Tree, q2: seq<Tree>)
    requires a.w <= b.w && forall k | 0 <= k < |q2| :: b.w <= q2[k].w
    ensures Combine([a, b] + q2) == Combine(q2 + [Internal(a, b, a.w + b.w)])
  {
    PollPair(a, b, q2);
    FrontStep(a, b, q2, q2 + [Internal(a, b, a.w + b.w)]);
  }

  function A(): Tree { Leaf(65, 1) }
  function B(): Tree { Leaf(66, 1) }
  function C(): Tree { Leaf(67, 1) }
  function D(): Tree { Leaf(68, 1) }
  function E(): Tree { Leaf(69, 1) }
  function F(): Tree { Leaf(70, 1) }
  function AB(): Tree { Internal(A(), B(), 2) }
  function CD(): Tree { Internal(C(), D(), 2) }
  function EF(): Tree { Internal(E(), F(), 2) }
  function ABCD(): Tree { Internal(AB(), CD(), 4) }

  /** The five rounds of the merge loop on the six leaves. */
  lemma ExampleMerges()
    ensures Combine([A(), B(), C(), D(), E(), F()]) == Some(ExampleTree())
  {
    Round1();
    Round2();
    Round3();
    Round4();
    Round5();
  }

  lemma Round1()
    ensures Combine([A(), B(), C(), D(), E(), F()]) == Combine([C(), D(), E(), F(), AB()])
  {
    FrontRound(A(), B(), [C(), D(), E(), F()]);
    Queue1();
  }

  lemma Queue1()
    ensures [A(), B()] + [C(), D(), E(), F()] == [A(), B(), C(), D(), E(), F()]
    ensures [C(), D(), E(), F()] + [Internal(A(), B(), A().w + B().w)] == [C(), D(), E(), F(), AB()]
  {
  }

  lemma Round2()
    ensures Combine([C(), D(), E(), F(), AB()]) == Combine([E(), F(), AB(), CD()])
  {
    FrontRound(C(), D(), [E(), F(), AB()]);
    Queue2();
  }

  lemma Queue2()
    ensures [C(), D()] + [E(), F(), AB()] == [C(), D(), E(), F(), AB()]
    ensures [E(), F(), AB()] + [Internal(C(), D(), C().w + D().w)] == [E(), F(), AB(), CD()]
  {
  }

  lemma Round3()
    ensures Combine([E(), F(), AB(), CD()]) == Combine([AB(), CD(), EF()])
  {
    FrontRound(E(), F(), [AB(), CD()]);
    Queue3();
  }

  lemma Queue3()
    ensures [E(), F()] + [AB(), CD()] == [E(), F(), AB(), CD()]
    ensures [AB(), CD()] + [Internal(E(), F(), E().w + F().w)] == [AB(), CD(), EF()]
  {
  }

  lemma Round4()
    ensures Combine([AB(), CD(), EF()]) == Combine([EF(), ABCD()])
  {
    FrontRound(AB(), CD(), [EF()]);
    Queue4();
  }

  lemma Queue4()
    ensures [AB(), CD()] + [EF()] == [AB(), CD(), EF()]
    ensures [EF()] + [Internal(AB(), CD(), AB().w + CD().w)] == [EF(), ABCD()]
  {
  }

  lemma Round5()
    ensures Combine([EF(), ABCD()]) == Some(ExampleTree())
  {
    FrontRound(EF(), ABCD(), []);
    Queue5();
  }

  lemma Queue5()
    ensures [EF(), ABCD()] + [] == [EF(), ABCD()]
    ensures [] + [Internal(EF(), ABCD(), EF().w + ABCD().w)] == [ExampleTree()]
  {
  }

  /** With every byte of the text counted once, the leaf queue holds the six
      leaves in text order. */
  lemma ExampleLeaves(m: map<Byte, nat>)
    requires forall b | b in Text() :: b in m && m[b] == 1
    ensures LeafQueue(m, Text()) == [A(), B(), C(), D(), E(), F()]
  {
    var t := Text();
    assert forall k | 0 <= k < |t| :: t[k] in m && m[t[k]] == 1 by {
      forall k | 0 <= k < |t| ensures t[k] in m && m[t[k]] == 1 {
        assert t[k] in t;
      }
    }
    var q := LeafQueue(m, t);
    assert q[0] == A() && q[1] == B() && q[2] == C();
    assert q[3] == D() && q[4] == E() && q[5] == F();
  }

  /** The table of the example builds the tree above. */
  lemma ExampleBuild(m: map<Byte, nat>)
    requires IsEnumeration(Text(), m) && forall b | b in m :: m[b] == 1
    ensures BuildHuffmanTree(m, Text()) == Some(ExampleTree())
  {
    ExampleLeaves(m);
    ExampleMerges();
  }

  /** A leaf is reached by the empty path. */
  lemma ReachLeaf(x: Tree)
    requires x.Leaf?
    ensures Reaches(x, [], x.sym)
  {
  }

  /** A path from a child, preceded by the bit choosing that child, is a path
      from the node. */
  lemma ReachDown(l: Tree, r: Tree, w: nat, bit: Bit, p: seq<Bit>, s: Byte)
    requires Reaches(if bit == 0 then l else r, p, s)
    ensures Reaches(Internal(l, r, w), [bit] + p, s)
  {
    assert ([bit] + p)[0] == bit && ([bit] + p)[1..] == p;
  }

  lemma PairReaches(x: Tree, y: Tree, w: nat)
    requires x.Leaf? && y.Leaf?
    ensures Reaches(Internal(x, y, w), [0], x.sym) && Reaches(Internal(x, y, w), [1], y.sym)
  {
    ReachLeaf(x);
    ReachLeaf(y);
    ReachDown(x, y, w, 0, [], x.sym);
    ReachDown(x, y, w, 1, [], y.sym);
    assert [0] + [] == [0] && [1] + [] == [1];
  }

  /** In a tree of the example's shape, the two leaves on the left are
      reached by 00 and 01. */
  lemma LeftReaches(ef: Tree, abcd: Tree)
    requires ef.Internal? && ef.left.Leaf? && ef.right.Leaf?
    ensures Reaches(Internal(ef, abcd, 6), [0, 0], ef.left.sym)
    ensures Reaches(Internal(ef, abcd, 6), [0, 1], ef.right.sym)
  {
    PairReaches(ef.left, ef.right, ef.w);
    assert ef == Internal(ef.left, ef.right, ef.w);
    ReachDown(ef, abcd, 6, 0, [0], ef.left.sym);
    ReachDown(ef, abcd, 6, 0, [1], ef.right.sym);
    assert [0] + [0] == [0, 0] && [0] + [1] == [0, 1];
  }

  /** ... and a pair on the right is reached by the right bit, then the
      pair's bit, then the leaf's bit. */
  lemma RightReaches(ef: Tree, ab: Tree, cd: Tree, bit: Bit)
    requires ab.Internal? && ab.left.Leaf? && ab.right.Leaf?
    ensures var pair := if bit == 0 then Internal(ab, cd, 4) else Internal(cd, ab, 4);
            && Reaches(Internal(ef, pair, 6), [1, bit, 0], ab.left.sym)
            && Reaches(Internal(ef, pair, 6), [1, bit, 1], ab.right.sym)
  {
    var pair := if bit == 0 then Internal(ab, cd, 4) else Internal(cd, ab, 4);
    PairReaches(ab.left, ab.right, ab.w);
    assert ab == Internal(ab.left, ab.right, ab.w);
    ReachDown(pair.left, pair.right, 4, bit, [0], ab.left.sym);
    ReachDown(pair.left, pair.right, 4, bit, [1], ab.right.sym);
    ReachDown(ef, pair, 6, 1, [bit] + [0], ab.left.sym);
    ReachDown(ef, pair, 6, 1, [bit] + [1], ab.right.sym);
    assert [1] + ([bit] + [0]) == [1, bit, 0] && [1] + ([bit] + [1]) == [1, bit, 1];
  }

  /** A table whose keys are the leaves and whose entries are paths to them
      is the code table, when every leaf has its own symbol. */
  lemma TableFromPaths(t: Tree, e: map<Byte, seq<Bit>>)
    requires t.Internal? && UniqueLeaves(t)
    requires forall s :: s in LeafSyms(t) <==> s in e
    requires forall s | s in e :: Reaches(t, e[s], s)
    ensures CodeTable(Some(t)) == e
  {
    var m := CodeTable(Some(t));
    assert forall s | s in e :: s in m && m[s] == e[s] by {
      forall s | s in e ensures s in m && m[s] == e[s] {
        PathIsCode(t, e[s], s);
      }
    }
    SameEntries(m, e);
  }

  /** Two maps with the same keys and the same entries are equal. */
  lemma SameEntries(m: map<Byte, seq<Bit>>, e: map<Byte, seq<Bit>>)
    requires forall s | s in e :: s in m && m[s] == e[s]
    requires forall s | s in m :: s in e
    ensures m == e
  {
  }

  lemma ExampleShape()
    ensures UniqueLeaves(ExampleTree())
    ensures forall s :: s in LeafSyms(ExampleTree()) <==> s in ExampleCodes()
  {
    assert LeafSyms(ExampleTree()) == [69, 70, 65, 66, 67, 68];
  }

  lemma ExampleCodeTable()
    ensures CodeTable(Some(ExampleTree())) == ExampleCodes()
  {
    var t, e := ExampleTree(), ExampleCodes();
    ExampleShape();
    LeftReaches(EF(), ABCD());
    RightReaches(EF(), AB(), CD(), 0);
    RightReaches(EF(), CD(), AB(), 1);
    assert forall s | s in e :: Reaches(t, e[s], s);
    TableFromPaths(t, e);
  }

  /** One step of the sum: the first entry's frequency times its code length. */
  lemma SumCons(m: map<Byte, nat>, c: map<Byte, seq<Bit>>, x: Byte, rest: seq<Byte>)
    requires x in m && x in c && forall b | b in rest :: b in m && b in c
    ensures WeightedSum(m, c, [x] + rest) == m[x] * |c[x]| + WeightedSum(m, c, rest)
  {
    assert ([x] + rest)[0] == x && ([x] + rest)[1..] == rest;
  }

  /** Frequency times code length over the six bytes: 4 * 3 + 2 * 2. */
  lemma ExampleSum(m: map<Byte, nat>, c: map<Byte, seq<Bit>>)
    requires forall b | b in Text() :: b in m && m[b] == 1 && b in c
    requires |c[65]| == 3 && |c[66]| == 3 && |c[67]| == 3 && |c[68]| == 3 && |c[69]| == 2 && |c[70]| == 2
    ensures WeightedSum(m, c, Text()) == 16
  {
    assert 65 in Text() && 66 in Text() && 67 in Text();
    assert 68 in Text() && 69 in Text() && 70 in Text();
    SumEF(m, c);
    SumCD(m, c);
    SumAB(m, c);
  }

  lemma SumEF(m: map<Byte, nat>, c: map<Byte, seq<Bit>>)
    requires 69 in m && 70 in m && 69 in c && 70 in c
    requires m[69] == 1 && m[70] == 1 && |c[69]| == 2 && |c[70]| == 2
    ensures WeightedSum(m, c, [69, 70]) == 4
  {
    SumLists();
    SumCons(m, c, 70, []);
    SumCons(m, c, 69, [70]);
  }

  lemma SumCD(m: map<Byte, nat>, c: map<Byte, seq<Bit>>)
    requires 67 in m && 68 in m && 69 in m && 70 in m && 67 in c && 68 in c && 69 in c && 70 in c
    requires m[67] == 1 && m[68] == 1 && |c[67]| == 3 && |c[68]| == 3
    requires WeightedSum(m, c, [69, 70]) == 4
    ensures WeightedSum(m, c, [67, 68, 69, 70]) == 10
  {
    SumLists();
    SumCons(m, c, 68, [69, 70]);
    SumCons(m, c, 67, [68, 69, 70]);
  }

  lemma SumAB(m: map<Byte, nat>, c: map<Byte, seq<Bit>>)
    requires forall b | b in Text() :: b in m && b in c
    requires m[65] == 1 && m[66] == 1 && |c[65]| == 3 && |c[66]| == 3
    requires WeightedSum(m, c, [67, 68, 69, 70]) == 10
    ensures WeightedSum(m, c, Text()) == 16
  {
    SumLists();
    assert 67 in Text() && 68 in Text() && 69 in Text() && 70 in Text();
    SumCons(m, c, 66, [67, 68, 69, 70]);
    SumCons(m, c, 65, [66, 67, 68, 69, 70]);
  }

  lemma SumLists()
    ensures [70] + [] == [70] && [69] + [70] == [69, 70] && [68] + [69, 70] == [68, 69, 70]
    ensures [67] + [68, 69, 70] == [67, 68, 69, 70] && [66] + [67, 68, 69, 70] == [66, 67, 68, 69, 70]
    ensures [65] + [66, 67, 68, 69, 70] == Text()
  {
  }

  /** The parts of the constructed object. */
  lemma NewHuffmanParts(original: seq<Byte>, order: seq<Byte>)
    requires IsEnumeration(order, Frequencies(original))
    ensures var h := NewHuffman(original, order);
            && h.freqs == Frequencies(original) && h.order == order
            && h.tree == BuildHuffmanTree(Frequencies(original), order)
            && h.codes == CodeTable(h.tree)
  {
  }

  /** The constructed object: the tree above and its codes. Two symbols get
      two-bit codes and four get three-bit codes, so `bitLength()` is 16. */
  lemma ExampleHuffman()
    ensures IsEnumeration(Text(), Frequencies(Text()))
    ensures NewHuffman(Text(), Text()).tree == Some(ExampleTree())
    ensures NewHuffman(Text(), Text()).codes == ExampleCodes()
    ensures BitLength(NewHuffman(Text(), Text())) == 16
  {
    ExampleBuilt();
    ExampleKnown();
  }

  lemma ExampleKnown()
    ensures NewHuffman.requires(Text(), Text())
    ensures var h := NewHuffman(Text(), Text());
            h.tree == Some(ExampleTree()) && h.codes == ExampleCodes() && BitLength(h) == 16
  {
    assert IsEnumeration(Text(), Frequencies(Text())) by { ExampleBuilt(); }
    assert BuildHuffmanTree(Frequencies(Text()), Text()) == Some(ExampleTree()) by { ExampleBuilt(); }
    assert CodeTable(Some(ExampleTree())) == ExampleCodes() by { ExampleCodeTable(); }
    assert forall b | b in Text() :: b in ExampleCodes() by { ExampleCodeLengths(); }
    assert WeightedSum(Frequencies(Text()), ExampleCodes(), Text()) == 16 by { ExampleSummed(); }
    KnownHuffman(Text(), ExampleTree(), ExampleCodes(), 16);
  }

  lemma ExampleBuilt()
    ensures IsEnumeration(Text(), Frequencies(Text()))
    ensures BuildHuffmanTree(Frequencies(Text()), Text()) == Some(ExampleTree())
  {
    ExampleFrequencies();
    ExampleTreeBuilt(Frequencies(Text()));
  }

  lemma ExampleSummed()
    ensures forall b | b in Text() :: b in Frequencies(Text()) && b in ExampleCodes()
    ensures WeightedSum(Frequencies(Text()), ExampleCodes(), Text()) == 16
  {
    ExampleFrequencies();
    ExampleSumCounted(Frequencies(Text()));
  }

  lemma ExampleTreeBuilt(m: map<Byte, nat>)
    requires IsEnumeration(Text(), m) && forall b | b in m :: m[b] == 1
    ensures BuildHuffmanTree(m, Text()) == Some(ExampleTree())
  {
    ExampleBuild(m);
  }

  lemma ExampleSumCounted(m: map<Byte, nat>)
    requires IsEnumeration(Text(), m) && forall b | b in m :: m[b] == 1
    ensures forall b | b in Text() :: b in m && b in ExampleCodes()
    ensures WeightedSum(m, ExampleCodes(), Text()) == 16
  {
    ExampleCodeLengths();
    ExampleSum(m, ExampleCodes());
  }

  lemma ExampleCodeLengths()
    ensures forall b | b in Text() :: b in ExampleCodes()
    ensures var c := ExampleCodes();
            |c[65]| == 3 && |c[66]| == 3 && |c[67]| == 3 && |c[68]| == 3 && |c[69]| == 2 && |c[70]| == 2
  {
  }

  /** The constructed object, given what its tree, codes and sum come to. */
  lemma KnownHuffman(original: seq<Byte>, t: Tree, codes: map<Byte, seq<Bit>>, n: nat)
    requires IsEnumeration(original, Frequencies(original))
    requires BuildHuffmanTree(Frequencies(original), original) == Some(t)
    requires CodeTable(Some(t)) == codes
    requires forall b | b in original :: b in codes
    requires WeightedSum(Frequencies(original), codes, original) == n
    ensures NewHuffman(original, original).tree == Some(t)
    ensures NewHuffman(original, original).codes == codes
    ensures BitLength(NewHuffman(original, original)) == n
  {
    NewHuffmanParts(original, original);
  }

  /** What the round trip and the bit length say, for any text whose
      constructed object is known. */
  lemma KnownRoundTrip(original: seq<Byte>, codes: map<Byte, seq<Bit>>, tree: Option<Tree>, n: nat)
    requires IsEnumeration(original, Frequencies(original))
    requires |original| >= 2 && original[0] != original[1]
    requires NewHuffman(original, original).codes == codes && NewHuffman(original, original).tree == tree
    requires BitLength(NewHuffman(original, original)) == n
    ensures Encode(codes, original).Success? && |Encode(codes, original).value| == n
    ensures Decode(tree, Encode(codes, original).value) == Success(original)
  {
    BitLengthIsEncodedLength(original, original);
    HuffmanRoundTrip(original, original);
  }

  /** The bit encoding of the example has 16 bits and decodes back to it. */
  lemma ExampleRoundTrip()
    ensures Encode(ExampleCodes(), Text()).Success?
    ensures |Encode(ExampleCodes(), Text()).value| == 16
    ensures Decode(Some(ExampleTree()), Encode(ExampleCodes(), Text()).value) == Success(Text())
  {
    ExampleHuffman();
    KnownRoundTrip(Text(), ExampleCodes(), Some(ExampleTree()), 16);
  }

  /** A code of one to seven bits fits a signed byte. */
  lemma ShortCodeFits(c: seq<Bit>)
    requires 1 <= |c| <= 7
    ensures ParseByte(c).Success?
  {
    BinaryBelow(c);
    assert Pow2(|c|) <= Pow2(7) by {
      Pow2Grows(|c|, 7);
    }
  }

  lemma {:induction false} BinaryBelow(c: seq<Bit>)
    ensures BinaryValue(c) < Pow2(|c|)
  {
    if c != [] {
      BinaryBelow(c[..|c| - 1]);
    }
  }

  lemma {:induction false} Pow2Grows(m: nat, n: nat)
    requires m <= n
    ensures Pow2(m) <= Pow2(n)
    decreases n - m
  {
    if m < n {
      Pow2Grows(m + 1, n);
    }
  }

  /** The byte packing as written fails the check `main` prints: A's code
      "100" is packed as the byte 4, which unpacks to "00000100", and the walk
      reads its first two zeros as E. */
  lemma ExamplePackedFails()
    ensures PackedEncode(ExampleCodes(), Text()).Success?
    ensures var d := PackedDecode(Some(ExampleTree()), PackedEncode(ExampleCodes(), Text()).value);
            d.Success? && d.value != [] && d.value[0] == 69 && d != Success(Text())
  {
    var bytes := ExamplePacked();
    PackedStartsWithE(bytes);
    assert Text()[0] == 65;
  }

  /** Bytes that start with 4 decode, on the example tree, to E first. */
  lemma PackedStartsWithE(bytes: seq<Byte>)
    requires bytes != [] && bytes[0] == 4
    ensures var d := PackedDecode(Some(ExampleTree()), bytes);
            d.Success? && d.value != [] && d.value[0] == 69
  {
    var root := ExampleTree();
    UnpackFirst(bytes);
    var tail := [0, 0, 0, 1, 0, 0] + Unpack(bytes[1..]);
    ExampleFirstE(tail);
  }

  /** The byte 4 unpacks to "00000100". */
  lemma UnpackFirst(bytes: seq<Byte>)
    requires bytes != [] && bytes[0] == 4
    ensures Unpack(bytes) == [0, 0] + ([0, 0, 0, 1, 0, 0] + Unpack(bytes[1..]))
  {
    ByteFour();
    EightSplit(Unpack(bytes[1..]));
  }

  lemma ByteFour()
    ensures ByteBits(4) == [0, 0, 0, 0, 0, 1, 0, 0]
  {
    BinaryHundred();
    PackedCodeBits([1, 0, 0]);
    assert Zeros(5) == [0, 0, 0, 0, 0];
  }

  lemma EightSplit(x: seq<Bit>)
    ensures [0, 0, 0, 0, 0, 1, 0, 0] + x == [0, 0] + ([0, 0, 0, 1, 0, 0] + x)
  {
  }

  lemma BinaryHundred()
    ensures BinaryValue([1, 0, 0]) == 4 && ParseByte([1, 0, 0]) == Success(4)
  {
    var c: seq<Bit> := [1, 0, 0];
    assert c[..2] == [1, 0] && c[..2][..1] == [1] && c[..2][..1][..0] == [];
    assert BinaryValue([1]) == 1;
    assert BinaryValue([1, 0]) == 2;
  }

  /** Every code of the example fits a byte, and A's code "100" packs as 4. */
  lemma ExamplePacked() returns (bytes: seq<Byte>)
    ensures PackedEncode(ExampleCodes(), Text()) == Success(bytes)
    ensures |bytes| == 6 && bytes[0] == 4
  {
    var codes := ExampleCodes();
    forall b | b in Text() ensures b in codes && ParseByte(codes[b]).Success? {
      ShortCodeFits(codes[b]);
    }
    bytes := PackedEncode(codes, Text()).value;
    PackedEncodeHead(codes, Text());
    BinaryHundred();
  }

  /** On the example tree the bits 0, 0 decode to E. */
  lemma ExampleFirstE(tail: seq<Bit>)
    ensures Decode(Some(ExampleTree()), [0, 0] + tail) == Success([69] + Walk(ExampleTree(), ExampleTree(), tail))
  {
    var root := ExampleTree();
    assert Reaches(root, [0, 0], 69) by {
      var p: seq<Bit> := [0, 0];
      assert p[1..] == [0] && p[1..][1..] == [];
    }
    WalkPath(root, root, [0, 0], 69, tail);
  }

  /** `encode` packs the first byte's code into the first byte of its output. */
  lemma PackedEncodeHead(codes: map<Byte, seq<Bit>>, data: seq<Byte>)
    requires data != [] && PackedEncode(codes, data).Success?
    ensures data[0] in codes && ParseByte(codes[data[0]]).Success?
    ensures PackedEncode(codes, data).value[0] == ParseByte(codes[data[0]]).value
  {
    assert data[0] in data;
  }
}
