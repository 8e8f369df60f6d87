/** The byte packing h7/src/Huffman.java performs as written: `encode` parses
    each code string as a base-2 number into one byte (`Byte.parseByte(code, 2)`),
    and `decode` turns every byte back into eight bits (`%8s` of the unsigned
    binary string, spaces replaced by '0') before walking the tree. */
module HuffmanPacking {
  import opened Wrappers
  import opened HuffmanTree
  import opened HuffmanFrequencies
  import opened HuffmanBuild
  import opened HuffmanCodes
  import opened HuffmanCodec

  datatype PackError =
    | NumberFormat        // `Byte.parseByte` rejects the string (value above 127, or no code)
    | Decoding(e: HuffmanError)

  /** The value of a code read as a base-2 numeral, most significant bit first. */
  function BinaryValue(c: seq<Bit>): nat
  {
    if c == [] then 0 else 2 * BinaryValue(c[..|c| - 1]) + c[|c| - 1]
  }

  /** `Byte.parseByte(code, 2)`: the numeral's value when it fits a signed byte. */
  function ParseByte(c: seq<Bit>): (r: Result<Byte, PackError>)
    ensures r.Success? <==> c != [] && BinaryValue(c) <= 127
    ensures r.Success? ==> r.value == BinaryValue(c)
  {
    if c == [] || BinaryValue(c) > 127 then Failure(NumberFormat) else Success(BinaryValue(c))
  }

  /** The low `n` bits of `u`, most significant first. */
  function UnsignedBits(u: nat, n: nat): (r: seq<Bit>)
    ensures |r| == n
  {
    if n == 0 then [] else UnsignedBits(u / 2, n - 1) + [u % 2]
  }

  /** The eight bits `decode` reads for one byte: `b & 0xFF` in binary, padded
      on the left with zeros to eight characters. */
  function ByteBits(b: Byte): (r: seq<Bit>)
    ensures |r| == 8
  {
    UnsignedBits(if b < 0 then b + 256 else b, 8)
  }

  /** `encode` as written: one byte per input byte. A byte without a code makes
      `parseByte` see a null string, which it rejects like any bad numeral. */
  function PackedEncode(codes: map<Byte, seq<Bit>>, data: seq<Byte>): (r: Result<seq<Byte>, PackError>)
    ensures r.Success? ==> |r.value| == |data|
    ensures r.Success? <==> forall b | b in data :: b in codes && ParseByte(codes[b]).Success?
  {
    if data == [] then Success([])
    else if data[0] !in codes then Failure(NumberFormat)
    else
      match ParseByte(codes[data[0]])
      case Failure(e) => Failure(e)
      case Success(v) =>
        match PackedEncode(codes, data[1..])
        case Failure(e) => Failure(e)
        case Success(rest) => Success([v] + rest)
  }

  /** The bit string `decode` builds from the packed bytes. */
  function Unpack(bytes: seq<Byte>): (r: seq<Bit>)
    ensures |r| == 8 * |bytes|
  {
    if bytes == [] then [] else ByteBits(bytes[0]) + Unpack(bytes[1..])
  }

  /** `decode` as written: unpack every byte to eight bits, then walk. It
      fails exactly when there are bytes to read and no internal root to walk
      from, and otherwise emits at most eight symbols per byte. */
  function PackedDecode(tree: Option<Tree>, bytes: seq<Byte>): (r: Result<seq<Byte>, PackError>)
    ensures r.Failure? <==> bytes != [] && (tree.None? || tree.value.Leaf?)
    ensures r.Failure? ==> r.error == Decoding(NullNode)
    ensures r.Success? ==> |r.value| <= 8 * |bytes|
  {
    match Decode(tree, Unpack(bytes))
    case Failure(e) => Failure(Decoding(e))
    case Success(d) => Success(d)
  }

  function Zeros(n: nat): (r: seq<Bit>)
    ensures |r| == n && forall k | 0 <= k < n :: r[k] == 0
  {
    if n == 0 then [] else [0] + Zeros(n - 1)
  }

  /** Printing a numeral's value back in `n` bits restores the numeral behind
      `n - |c|` leading zeros: the zeros a code starts with are not kept apart
      from the padding. */
  lemma {:induction false} UnsignedBitsOfValue(c: seq<Bit>, n: nat)
    requires |c| <= n
    ensures UnsignedBits(BinaryValue(c), n) == Zeros(n - |c|) + c
    decreases n
  {
    if c == [] {
      ZeroBits(n);
    } else {
      var c', last := c[..|c| - 1], c[|c| - 1];
      var v := BinaryValue(c);
      assert v / 2 == BinaryValue(c') && v % 2 == last;
      UnsignedBitsOfValue(c', n - 1);
      assert c == c' + [last];
    }
  }

  lemma {:induction false} ZeroBits(n: nat)
    ensures UnsignedBits(0, n) == Zeros(n)
  {
    if n > 0 {
      ZeroBits(n - 1);
      assert Zeros(n) == Zeros(n - 1) + [0];
    }
  }

  /** Each packed code comes back from `decode`'s unpacking as the code behind
      `8 - |code|` zeros. */
  lemma PackedCodeBits(c: seq<Bit>)
    requires ParseByte(c).Success?
    ensures |c| <= 7 ==> ByteBits(ParseByte(c).value) == Zeros(8 - |c|) + c
  {
    if |c| <= 7 {
      CodeByteBits(c, ParseByte(c).value);
    }
  }

  lemma CodeByteBits(c: seq<Bit>, b: Byte)
    requires |c| <= 7 && 0 <= b == BinaryValue(c)
    ensures ByteBits(b) == Zeros(8 - |c|) + c
  {
    UnsignedBitsOfValue(c, 8);
  }

  /** A code of eight or more bits whose first bit is 1 is over 127, so
      `parseByte` rejects it. */
  lemma {:induction false} LongCodeOverflows(c: seq<Bit>)
    requires |c| >= 8 && c[0] == 1
    ensures BinaryValue(c) >= 128
    ensures ParseByte(c).Failure?
  {
    LeadingOneValue(c);
    Pow2AtLeast(|c| - 1);
  }

  function Pow2(n: nat): (r: nat)
    ensures r >= 1
  {
    if n == 0 then 1 else 2 * Pow2(n - 1)
  }

  lemma {:induction false} Pow2AtLeast(n: nat)
    requires n >= 7
    ensures Pow2(n) >= 128
  {
    if n > 7 {
      Pow2AtLeast(n - 1);
    }
  }

  lemma {:induction false} LeadingOneValue(c: seq<Bit>)
    requires |c| >= 1 && c[0] == 1
    ensures BinaryValue(c) >= Pow2(|c| - 1)
  {
    if |c| > 1 {
      var c' := c[..|c| - 1];
      assert c'[0] == 1;
      LeadingOneValue(c');
    }
  }

  /** The tree "AB" gets: A on the left, B on the right. */
  function TreeAB(): Tree
  {
    Internal(Leaf(65, 1), Leaf(66, 1), 2)
  }

  /** The source's own check: for the two-byte input "AB" (65, 66), the table
      is A = 0, B = 1; packing gives the bytes 0 and 1, which unpack to fifteen
      zero bits and a one, and the walk decodes sixteen symbols instead of two. */
  lemma PackedRoundTripFails()
    ensures IsEnumeration([65, 66], Frequencies([65, 66]))
    ensures var h := NewHuffman([65, 66], [65, 66]);
            && h.codes == map[65 := [0], 66 := [1]]
            && PackedEncode(h.codes, [65, 66]) == Success([0, 1])
            && PackedDecode(h.tree, [0, 1]) == Success(seq(15, _ => 65) + [66])
            && PackedDecode(h.tree, [0, 1]) != Success([65, 66])
  {
    FrequenciesAB();
    TwoByteTable();
    PackedEncodeAB();
    PackedDecodeAB();
  }

  lemma FrequenciesAB()
    ensures Frequencies([65, 66]) == map[65 := 1, 66 := 1]
    ensures IsEnumeration([65, 66], Frequencies([65, 66]))
  {
    var s: seq<Byte> := [65, 66];
    assert s[..1] == [65];
    assert s[..1][..0] == [];
  }

  /** For "AB" with entries in the order A, B, the queue polls A first, so A's
      code is "0" and B's is "1". */
  lemma TwoByteTable()
    requires IsEnumeration([65, 66], Frequencies([65, 66]))
    ensures NewHuffman([65, 66], [65, 66]).tree == Some(TreeAB())
    ensures NewHuffman([65, 66], [65, 66]).codes == map[65 := [0], 66 := [1]]
  {
    FrequenciesAB();
    BuildAB();
    CodesAB();
  }

  lemma BuildAB()
    ensures BuildHuffmanTree(map[65 := 1, 66 := 1], [65, 66]) == Some(TreeAB())
  {
    var freqs: map<Byte, nat> := map[65 := 1, 66 := 1];
    var q := LeafQueue(freqs, [65, 66]);
    assert q == [Leaf(65, 1), Leaf(66, 1)];
    PollAB(q);
    assert Poll([Leaf(66, 1)]) == (Leaf(66, 1), []);
    assert MergeStep(q) == [TreeAB()];
  }

  lemma PollAB(q: seq<Tree>)
    requires q == [Leaf(65, 1), Leaf(66, 1)]
    ensures Poll(q) == (Leaf(65, 1), [Leaf(66, 1)])
  {
    assert MinIndex(q) == 0;
    assert q[..0] + q[1..] == [Leaf(66, 1)];
  }

  lemma CodesAB()
    ensures CodeTable(Some(TreeAB())) == map[65 := [0], 66 := [1]]
  {
    assert CodesFrom(Leaf(65, 1), [0]) == map[65 := [0]];
    assert CodesFrom(Leaf(66, 1), [1]) == map[66 := [1]];
  }

  lemma PackedEncodeAB()
    ensures PackedEncode(map[65 := [0], 66 := [1]], [65, 66]) == Success([0, 1])
  {
    var codes: map<Byte, seq<Bit>> := map[65 := [0], 66 := [1]];
    var data: seq<Byte> := [65, 66];
    assert BinaryValue([0]) == 0 && BinaryValue([1]) == 1;
    assert ParseByte(codes[65]) == Success(0) && ParseByte(codes[66]) == Success(1);
    var tail: seq<Byte> := [66];
    assert data[1..] == tail && tail[1..] == [];
    assert PackedEncode(codes, tail[1..]) == Success([]);
    assert tail[0] in codes && codes[tail[0]] == [1];
    var one: seq<Byte> := [1];
    assert one + [] == one;
    assert PackedEncode(codes, tail) == Success(one);
    assert [0] + one == [0, 1];
  }

  lemma PackedDecodeAB()
    ensures PackedDecode(Some(TreeAB()), [0, 1]) == Success(seq(15, _ => 65) + [66])
  {
    var t := TreeAB();
    UnpackZeroOne();
    WalkZeros(t, 15, [1]);
    assert Walk(t, t, [1]) == [66];
  }

  lemma UnpackZeroOne()
    ensures Unpack([0, 1]) == Zeros(15) + [1]
  {
    assert ByteBits(0) == Zeros(8) by { ZeroBits(8); }
    assert ByteBits(1) == Zeros(7) + [1] by {
      assert BinaryValue([1]) == 1;
      UnsignedBitsOfValue([1], 8);
    }
    assert Unpack([0, 1]) == ByteBits(0) + ByteBits(1) + Unpack([]);
    ZerosAppend(8, 7);
  }

  lemma {:induction false} ZerosAppend(m: nat, n: nat)
    ensures Zeros(m + n) == Zeros(m) + Zeros(n)
  {
    if m > 0 {
      ZerosAppend(m - 1, n);
    }
  }

  /** Each zero bit on this two-leaf tree decodes one `A`. */
  lemma {:induction false} WalkZeros(t: Tree, n: nat, rest: seq<Bit>)
    requires t == Internal(Leaf(65, 1), Leaf(66, 1), 2)
    ensures Walk(t, t, Zeros(n) + rest) == seq(n, _ => 65) + Walk(t, t, rest)
  {
    if n > 0 {
      assert (Zeros(n) + rest)[0] == 0;
      assert (Zeros(n) + rest)[1..] == Zeros(n - 1) + rest;
      WalkZeros(t, n - 1, rest);
      assert seq(n, _ => 65) == [65] + seq(n - 1, _ => 65);
    } else {
      assert Zeros(0) + rest == rest;
    }
  }
}
