# Algorithms course exercises in Dafny

A Dafny model of four exercises from a Java algorithms course, with proofs of
what each one computes:

- **Huffman coding** (`h7/src/Huffman.java`): the steps are
  - count byte frequencies;
  - build the code tree with a priority queue;
  - derive the code table;
  - compute `bitLength`;
  - encode and decode.
- **Integer sorting** (`h2/src/IntSorting.java`): insertion sort, three binary
  insertion sorts, quicksort over a sub-range, radix sort by counting sort over
  bytes, and the `checkOrder` test.
- **`LongStack`** (`h3/src/LongStack.java`): a stack of Java `long`s with
  `push`, `pop`, `tos`, `op`, `clone`, `equals` and `toString`, plus the
  reverse-Polish evaluator `interpret`.
- **The postfix tree parser** (`h5/src/Node.java`): `parsePostfix` has three
  parts:
  - input validation (the regular expression, blank items, parenthesis
    balance, commas at top level);
  - the recursive tree builder;
  - the root check.

  The model also covers the left parenthetic printer.

Each source file maps to one or more modules:

| module | file | models |
|---|---|---|
| `Wrappers` | wrappers.dfy | `Option`, `Result`, `Outcome` for the source's exceptions and nulls |
| `HuffmanTree` | huffman_tree.dfy | the tree datatype, its leaves and paths |
| `HuffmanFrequencies` | huffman_freq.dfy | `calculateCharFrequencies` |
| `HuffmanBuild` | huffman_build.dfy | the priority queue, `poll`, `buildHuffmanTree` |
| `HuffmanCodes` | huffman_codes.dfy | `createHuffmanCodes` |
| `HuffmanCodec` | huffman_codec.dfy | the constructor, `bitLength`, encoding and decoding over bits |
| `HuffmanPacking` | huffman_packing.dfy | `encode`/`decode` with the byte packing as written |
| `HuffmanExample` | huffman_example.dfy | the `main` example, "ABCDEF" |
| `SortCore` | sort_core.dfy | `int`, sortedness, `System.arraycopy`, `checkOrder` |
| `InsertionSorts` | insertion_sort.dfy | the four insertion sorts and the two searches |
| `QuickSorting` | quick_sort.dfy | `quickSort` |
| `RadixSorting` | radix_sort.dfy | `getValue`, `countSort`, `radixSort` |
| `LongText` | long_text.dfy | `long`, `Long.toString`, `Long.parseLong`, `trim`, `split("\\s+")` |
| `LongStacks` | long_stack.dfy | the `LongStack` operations |
| `RpnInterpret` | rpn_interpret.dfy | `interpret` |
| `RpnReference` | rpn_reference.dfy | expression trees, their direct evaluation and their postfix spelling, as a reference for `interpret` |
| `NodeTree` | node_tree.dfy | the node datatype and its printed forms |
| `NodeInput` | node_input.dfy | `validateInput` and its four checks |
| `NodeParse` | node_parse.dfy | `buildTree`, its handlers, `validateRoot`, `parsePostfix` |

## Modelling choices

- **Values, not objects.** Arrays become `seq<int32>` and the sorts return
  the sorted sequence. The stack is a `LongStack` value, and each operation
  returns the new stack. A Java exception becomes the `Failure` or `Fail`
  branch of a result, carrying what the exception reports.
- **Fixed-width integers.** `int` is the subset type `int32`, `long` is
  `int64` and `byte` is `Byte`. The arithmetic of `op` wraps explicitly
  with two's-complement `Wrap`, and its `/` rounds toward zero as Java does.
  The index arithmetic of the searches and of quicksort is not wrapped (see
  Left out). Byte values read as unsigned use explicit `+ 256`, and
  `key >>> 8 * i` reduces its shift distance modulo 32, as Java does.
- **Hash map order.** `buildHuffmanTree` adds the leaves in the iteration
  order of a `HashMap`. The model takes that order as a parameter `order`:
  any duplicate-free listing of the table's keys. Every property is proved
  for all such orders. For the bytes of "ABCDEF" the iteration order is
  ascending, and the example uses that order.
- **Priority-queue ties.** `PriorityQueue.poll` returns some lightest tree.
  The model's queue is a sequence in insertion order, and `Poll` takes the
  first lightest tree. The properties of the build (weight, leaf multiset,
  well-formedness, the lightest-first merge) are proved for this rule. The
  JDK's binary heap breaks ties differently, so the concrete example trees
  and codes differ from those the program builds (see Left out).
- **Stack orientation.** The stack's `items` run from the bottom to the top,
  while the source's `LinkedList` keeps the top first. `toString` prints
  bottom to top in both.
- **Parser state.** The parser's static `items` list, which every recursive
  call pops from, becomes a position that each call receives and returns.
  `s.split("")` is read as the characters of `s`; for the empty string it is
  one empty item.
- **Huffman encoding, split in two.**
  - `HuffmanCodec.Encode` and `HuffmanCodec.Decode` model encoding as the
    concatenation of the codes, and decoding as the tree walk of the
    source's `decode`.
  - `HuffmanPacking` models the byte packing that `encode` and `decode`
    perform as written (see Findings).

### Edge cases of the code

- **Single-symbol input.** Input of one repeated byte gets a one-leaf tree
  with code `0`. Decoding any bits then steps into the leaf's missing child
  and throws a `NullPointerException` (`HuffmanCodec.SingleSymbolDecodeFails`).
- **Trailing bits.** Bits that stop inside an internal node are dropped
  silently (`HuffmanCodec.DecodeDropsTrailing`).
- **The "ABCDEF" example.** Its bit length is 16: two codes of length 2 and
  four of length 3 (`HuffmanExample.ExampleHuffman`).
- **Unknown bytes.** A byte missing from the code table makes `encode` throw.
  The packing models this as `Byte.parseByte` rejecting a null string.

## Model

| member | source | states |
|---|---|---|
| HuffmanFrequencies.Frequencies | h7/src/Huffman.java:55-60 | the table's keys are exactly the bytes of the input, and each value is that byte's number of occurrences (at least 1) |
| HuffmanFrequencies.FrequenciesSum | h7/src/Huffman.java:55-60 | in any enumeration order of the table, the counts add up to the input length |
| HuffmanBuild.MinIndex | h7/src/Huffman.java:33-35 | the index chosen holds a tree of least weight, and no earlier tree is as light |
| HuffmanBuild.Poll | h7/src/Huffman.java:73-74 | `poll` returns a tree no heavier than any tree of the queue, and leaves a queue one shorter (PollFacts states what the rest holds) |
| HuffmanBuild.PollFacts | h7/src/Huffman.java:73-74 | `poll` returns a lightest tree of the queue, and the rest of the queue holds the remaining trees: the total weight and the multiset of leaf symbols are split between them |
| HuffmanBuild.MergeFacts | h7/src/Huffman.java:72-76 | one loop round appends an internal node over the two trees polled; the first is lightest in the queue, the second lightest in what remains; its weight is their sum; the queue loses exactly those two trees and keeps its total weight and its leaf symbols |
| HuffmanBuild.Combine | h7/src/Huffman.java:72-78 | merging until one tree remains: an empty queue gives null; a single tree is returned as it is; two or more give an internal node; the result keeps the queue's total weight and leaf multiset, and is well formed when the queue's trees are |
| HuffmanBuild.LeafQueue | h7/src/Huffman.java:66-69 | the initial queue holds one leaf per table entry, in iteration order, weighted by its frequency |
| HuffmanBuild.BuildHuffmanTree | h7/src/Huffman.java:63-79 | no tree exactly when the table is empty; otherwise a well-formed tree whose leaves are the table's symbols, each once, with root weight the total count; one symbol gives a single leaf, two or more an internal root |
| HuffmanCodes.CodesFrom | h7/src/Huffman.java:82-92 | the table built below a node has an entry for exactly the leaves below it, each code non-empty and extending the code accumulated so far |
| HuffmanCodes.CodeTable | h7/src/Huffman.java:82-98 | no tree gives an empty table; a single leaf gets code "0"; in an internal tree every symbol's code is a path from the root to that symbol's leaf |
| HuffmanCodes.PrefixFree | h7/src/Huffman.java:82-92 | no symbol's code is a prefix of another symbol's code |
| HuffmanCodes.PathIsCode | h7/src/Huffman.java:82-92 | with every symbol on one leaf, the path to a symbol's leaf is exactly its code |
| HuffmanCodec.NewHuffman | h7/src/Huffman.java:45-52 | the constructed object has a tree exactly when the input is non-empty; the tree is well formed, its leaves are the input's distinct bytes, its weight the input length; the code table covers exactly the input's bytes, with non-empty codes |
| HuffmanCodec.BitLengthBounds | h7/src/Huffman.java:100-109 | an empty table gives 0, each entry's frequency times code length is part of the sum, and with positive counts and non-empty codes every entry adds at least one bit |
| HuffmanCodec.BitLengthIsEncodedLength | h7/src/Huffman.java:103-109 | `bitLength` equals the number of bits in the concatenated codes of the input |
| HuffmanCodec.Encode | h7/src/Huffman.java:115-126 | encoding succeeds exactly when every byte has a code; otherwise it reports a byte of the data that has none |
| HuffmanCodec.Decode | h7/src/Huffman.java:132-153 | decoding fails, with a null dereference, exactly when there are bits and the tree is absent or a single leaf; no bits decode to nothing |
| HuffmanCodec.DecodeEncode | h7/src/Huffman.java:132-153 | with an internal tree, decoding the concatenated codes of any data over the tree's symbols gives back that data |
| HuffmanCodec.DecodeDropsTrailing | h7/src/Huffman.java:137-146 | bits after the last complete code that stop inside the tree are dropped without error |
| HuffmanCodec.TwoSymbolsInternal | h7/src/Huffman.java:63-79 | input with two different bytes builds an internal root |
| HuffmanCodec.HuffmanRoundTrip | h7/src/Huffman.java:45-153 | for empty input or input with two distinct bytes, encoding with the object's codes succeeds and decoding with its tree returns the input |
| HuffmanCodec.SingleSymbolDecodeFails | h7/src/Huffman.java:86-146 | input of one repeated byte gets code "0" and one bit per byte, and decoding those bits fails with a null dereference |
| HuffmanPacking.ParseByte | h7/src/Huffman.java:121 | `Byte.parseByte(code, 2)` succeeds exactly on a non-empty code whose binary value is at most 127, and returns that value |
| HuffmanPacking.ByteBits | h7/src/Huffman.java:137 | every byte is expanded to exactly eight bits |
| HuffmanPacking.PackedEncode | h7/src/Huffman.java:115-126 | packed encoding yields one byte per input byte, and succeeds exactly when every input byte has a code that `parseByte` accepts |
| HuffmanPacking.Unpack | h7/src/Huffman.java:136-138 | the packed bytes expand to eight bits each |
| HuffmanPacking.PackedDecode | h7/src/Huffman.java:132-153 | decoding packed bytes fails with a null dereference exactly when there are bytes and the tree is absent or a single leaf; otherwise it emits at most eight symbols per byte |
| HuffmanPacking.LongCodeOverflows | h7/src/Huffman.java:121 | a code of eight or more bits that starts with 1 is above 127, so `parseByte` rejects it |
| HuffmanPacking.PackedRoundTripFails | h7/src/Huffman.java:115-153 | for "AB" the codes are "0" and "1", packed encoding gives the bytes 0 and 1, and packed decoding gives fifteen A's followed by a B, not "AB" |
| HuffmanExample.ExampleHuffman | h7/src/Huffman.java:166-176 | under the first-lightest tie rule, the tree for "ABCDEF" pairs A-B, C-D and then E-F; E and F get two-bit codes and A to D three-bit codes; `bitLength` is 16 |
| HuffmanExample.ExampleCodeTable | h7/src/Huffman.java:82-98 | the code table of the example tree is exactly the six codes listed |
| HuffmanExample.TableFromPaths | h7/src/Huffman.java:82-98 | a table whose every code reaches its symbol, listing every symbol of a tree with unique leaves, is that tree's code table |
| HuffmanExample.ExampleRoundTrip | h7/src/Huffman.java:166-176 | the bit-level round trip that `main` intends: the example encodes to 16 bits and decodes back to "ABCDEF" (the packed round trip `main` actually runs fails, see ExamplePackedFails) |
| HuffmanExample.ExamplePackedFails | h7/src/Huffman.java:166-176 | under the first-lightest tie rule and with the byte packing as written, the example decodes to data starting with E, not to "ABCDEF" |
| SortCore.ArrayCopy | h2/src/IntSorting.java:144 | `System.arraycopy` writes the source range over the destination range, reading the old values when they overlap, and leaves every other element as it was |
| SortCore.InsertSorted | h2/src/IntSorting.java:143-147 | inserting an element after the smaller and before the larger elements of the sorted prefix extends that prefix by one, keeps the rest, and permutes the array |
| SortCore.AdjacentOrderedIsSorted | h2/src/IntSorting.java:297-305 | every adjacent pair in order is equivalent to the whole sequence being sorted |
| SortCore.CheckOrder | h2/src/IntSorting.java:297-305 | passes exactly on sorted arrays; on failure reports the first out-of-order pair, its index and values, with everything before it sorted |
| InsertionSorts.InsertionSort | h2/src/IntSorting.java:105-118 | the result is sorted, is a permutation of the input, and equals the input when it has fewer than two elements |
| InsertionSorts.ShiftLarger | h2/src/IntSorting.java:111-116 | the inner loop stops after the last element not larger than the saved one, moves the larger ones up, and drops the saved value into the gap |
| InsertionSorts.UpperBound | h2/src/IntSorting.java:131-141 | over a sorted prefix the search returns the first position holding a value greater than the key |
| InsertionSorts.BinaryInsertionSort | h2/src/IntSorting.java:126-149 | the result is sorted, is a permutation of the input, and equals the input when it has fewer than two elements |
| InsertionSorts.BinarySearch | h2/src/IntSorting.java:172-182 | over a sorted range it returns the first position holding a value not less than the key, or one past the range; an empty range gives its low end |
| InsertionSorts.BinaryInsertionSort1 | h2/src/IntSorting.java:158-170 | the result is sorted, is a permutation of the input, and equals the input when it has fewer than two elements |
| InsertionSorts.JavaBinarySearch | h2/src/IntSorting.java:197 | `Arrays.binarySearch`: a non-negative answer is an index holding the key; a negative one encodes an insertion point with smaller values before and larger after it |
| InsertionSorts.BinaryInsertionSort2 | h2/src/IntSorting.java:191-205 | the result is sorted, is a permutation of the input, and equals the input when it has fewer than two elements |
| QuickSorting.Partition | h2/src/IntSorting.java:224-239 | the partition loop permutes the range and nothing else; the pivot is the middle element; the parts left of `i` are at most the pivot, those right of `j` at least it, both shorter than the range |
| QuickSorting.QuickSortRange | h2/src/IntSorting.java:219-244 | on a valid range the recursion sorts the range, permutes it, and leaves everything outside it unchanged |
| QuickSorting.QuickSort | h2/src/IntSorting.java:219-244 | an empty array, a negative `l` or `r <= l` throw the argument exception; otherwise a range of fewer than two elements returns unchanged, a range past the end throws an index exception, and any other range is sorted and permuted with the outside kept |
| RadixSorting.Unsigned | h2/src/IntSorting.java:253-255 | the 32-bit pattern read unsigned is below 2^32, is the key itself when it is non-negative, and is at least 2^31 when it is negative |
| RadixSorting.GetValue | h2/src/IntSorting.java:253-255 | a byte value is below 256 |
| RadixSorting.KeyFromBytes | h2/src/IntSorting.java:253-255 | the four byte values, least significant first, recompose the unsigned key |
| RadixSorting.CountSort | h2/src/IntSorting.java:258-276 | the result is the keys grouped into 256 buckets by byte `i`, each bucket in input order, and a permutation of the keys |
| RadixSorting.CountBytes | h2/src/IntSorting.java:262-267 | the first loops leave `freq[d]` as the number of keys whose byte is `d` |
| RadixSorting.BucketEnds | h2/src/IntSorting.java:268-270 | the prefix sums leave `freq[d]` as the end of bucket `d` |
| RadixSorting.PlaceAll | h2/src/IntSorting.java:271-274 | placing the keys from last to first, each below its bucket's cursor, produces the buckets in order |
| RadixSorting.BucketsStable | h2/src/IntSorting.java:258-276 | counting sort is stable: keys sharing a byte keep their input order |
| RadixSorting.BucketsOrdered | h2/src/IntSorting.java:258-276 | counting sort orders the keys by the byte it sorts on |
| RadixSorting.RadixSort | h2/src/IntSorting.java:279-287 | the result is a permutation of the keys, ordered by unsigned 32-bit value, and ascending when no key is negative |
| LongText.ParseLong | h3/src/LongStack.java:149 | `Long.parseLong` succeeds exactly on an optionally signed run of digits whose value fits a `long`, and returns that value |
| LongText.ParseLongToString | h3/src/LongStack.java:130 | parsing what `Long.toString` prints gives back the number |
| LongText.Trim | h3/src/LongStack.java:137 | `trim` returns the slice of the input between a run of leading and a run of trailing characters at most a space; what it keeps starts and ends above a space, and a string that already does is unchanged |
| LongText.Words | h3/src/LongStack.java:142-147 | the tokens `interpret` reads are non-empty and contain no whitespace |
| LongText.WordsOfWord | h3/src/LongStack.java:142 | a string without whitespace splits into itself alone |
| LongText.WordsSplit | h3/src/LongStack.java:142 | a whitespace character splits the string into the words before it followed by the words after it, so the tokens are the maximal runs of non-space characters |
| LongText.WordsJoin | h3/src/LongStack.java:142 | splitting words joined by single spaces gives back the words |
| LongText.JoinLayout | h3/src/LongStack.java:125-133 | words joined with the separator `toString` uses give a string whose only whitespace is single spaces between words |
| LongText.SpacedIsJoin | h3/src/LongStack.java:125-133 | a string whose only whitespace is single spaces between non-space characters is its words joined by single spaces |
| LongStacks.Wrap | h3/src/LongStack.java:87-93 | `long` arithmetic gives the value congruent to the exact result modulo 2^64, which is the exact result when it fits |
| LongStacks.TruncDiv | h3/src/LongStack.java:99 | Java's division leaves a remainder smaller in size than the divisor and of the dividend's sign |
| LongStacks.Apply | h3/src/LongStack.java:85-103 | an operator succeeds exactly when it is one of + - * / and is not a division by zero; the sum, difference and product are the exact results wrapped to 64 bits, the quotient is rounded toward zero and wrapped; a zero divisor and an unknown operator give their own errors |
| LongStacks.Empty | h3/src/LongStack.java:46-49 | a new stack holds no elements |
| LongStacks.StEmpty | h3/src/LongStack.java:59-62 | a stack is empty exactly when it prints as the empty string |
| LongStacks.Push | h3/src/LongStack.java:64-67 | pushing makes the stack non-empty and one longer |
| LongStacks.Pop | h3/src/LongStack.java:69-75 | popping fails exactly on an empty stack; otherwise pushing the popped value back onto the rest restores the stack |
| LongStacks.Tos | h3/src/LongStack.java:107-113 | reading the top fails exactly on an empty stack; otherwise it is the value `pop` would return |
| LongStacks.Op | h3/src/LongStack.java:77-105 | with fewer than two elements the stack is untouched and the call fails; otherwise it succeeds exactly for a valid non-zero-division operator, keeps everything below the two operands, and pushes `Apply` of the lower and the upper operand, or pops both and reports `Apply`'s error |
| LongStacks.Clone | h3/src/LongStack.java:52-57 | the clone is `equals` to the original |
| LongStacks.Equals | h3/src/LongStack.java:115-123 | two stacks are `equals` exactly when they are the same value, and exactly when they print alike |
| LongStacks.ToString | h3/src/LongStack.java:125-133 | the printed stack splits into the printed elements, bottom to top, and its only whitespace is single spaces between two of them, none at either end |
| LongStacks.ToStringDetermined | h3/src/LongStack.java:125-133 | the words and the layout `toString` promises fix its result: any single-spaced string with those words is the printed stack |
| LongStacks.PopPush | h3/src/LongStack.java:64-75 | `pop` after `push(x)` returns `x` and the earlier stack, and `tos` sees `x` |
| LongStacks.OpIsPopPopPush | h3/src/LongStack.java:82-104 | after a successful `op` with operands `a` below `b`, `pop` returns the stack below both operands and the value `a s b` |
| LongStacks.OpFailurePops | h3/src/LongStack.java:82-103 | a failing `op` on two or more elements leaves both operands popped and reports the operator's error |
| LongStacks.StackExamples | h3/src/LongStack.java:8-27 | `main`'s checks: 10 and 20 pop back as 20 then 10, and 50 + 10 leaves 60 |
| LongStacks.ToStringParses | h3/src/LongStack.java:125-133 | the printed stack splits into one word per element, bottom to top, each parsing back to its element |
| RpnInterpret.Run | h3/src/LongStack.java:144-162 | an invalid token makes the loop fail, and a reported invalid token is one of the tokens; any other failure is a failure of `op`; a successful run changes the stack size by one per number and minus one per operator |
| RpnInterpret.Interpret | h3/src/LongStack.java:135-169 | a blank expression fails as empty; an invalid token fails; otherwise the tokens of the trimmed expression run on a fresh stack, a failure of that run is the result, one value left is the result, and more or none fail as redundant |
| RpnReference.OpIsCalc | h3/src/LongStack.java:77-105 | `op` on two pushed operands replaces them by the reference result, or reports the reference error |
| RpnReference.RunConcat | h3/src/LongStack.java:144-162 | the token loop over two lists is the loop over the first, then over the second from the stack the first leaves |
| RpnReference.RunExpr | h3/src/LongStack.java:144-162 | running an expression's postfix tokens pushes its reference value, or fails with the first error the reference evaluation meets |
| RpnReference.InterpretExpr | h3/src/LongStack.java:135-169 | `interpret` of any expression's postfix spelling equals the expression's reference value, and a zero divisor met on the way is the failure of `op` |
| RpnInterpret.InterpretExample | h3/src/LongStack.java:39-40 | "3 4 +" evaluates to 7 |
| RpnInterpret.RunPrinted | h3/src/LongStack.java:144-162 | running the printed form of a stack on its own prefix rebuilds the stack |
| RpnInterpret.InterpretPrinted | h3/src/LongStack.java:164-168 | evaluating a printed one-element stack gives its element; a printed stack of two or more is rejected as leaving redundant elements |
| NodeTree.ParentheticLetters | h5/src/Node.java:158-176 | the printed form holds the tree's names in pre-order and nothing else besides delimiters |
| NodeTree.ExampleForms | h5/src/Node.java:179-184 | the example tree prints as "A(B1,C)" and is written in postfix as "(B1,C)A" |
| NodeInput.BalanceScanSpec | h5/src/Node.java:60-72 | the balance check passes exactly when no prefix closes more parentheses than it opens |
| NodeInput.CommaScanSpec | h5/src/Node.java:74-85 | the comma check passes exactly when no comma stands at depth zero |
| NodeInput.ValidateInput | h5/src/Node.java:39-85 | validation passes exactly when the pattern does not match, no item is blank, no prefix is overclosed and no comma is at top level, and reports the first failing check in that order |
| NodeInput.NoCloseOpenValid | h5/src/Node.java:46-50 | input without ")(" never matches the rejected pattern |
| NodeInput.RejectsBlank | h5/src/Node.java:52-58 | example: the empty string and a string with a space are rejected as empty nodes |
| NodeInput.RejectsClosing | h5/src/Node.java:60-72 | example: "A)" is rejected for too many closing parentheses |
| NodeInput.RejectsComma | h5/src/Node.java:74-85 | example: "A,B" is rejected for a comma outside parentheses |
| NodeInput.RejectsTwoGroups | h5/src/Node.java:46-50 | example: "((A)(B)C)D" matches the rejected pattern |
| NodeParse.BuildTree | h5/src/Node.java:99-155 | a successful build returns a named node and a position within the input that is not before the start |
| NodeParse.ValidateRoot | h5/src/Node.java:88-96 | the root check fails exactly on a root with a sibling but no child |
| NodeParse.ParsePostfix | h5/src/Node.java:24-36 | blank, overclosed or top-level-comma input is rejected, and a parsed tree is a named root without siblings |
| NodeParse.BuildNamed | h5/src/Node.java:99-155 | from valid input every node built, below and beside the result, has a name |
| NodeParse.PostfixValid | h5/src/Node.java:39-85 | the postfix form of every well-formed tree passes all input checks |
| NodeParse.RoundTrip | h5/src/Node.java:24-155 | parsing the postfix form of any well-formed tree gives back that tree |
| NodeParse.ParseExample | h5/src/Node.java:179-184 | "(B1,C)A" parses to the tree printed as "A(B1,C)", as `main` shows |
| NodeParse.ParentheticBalanced | h5/src/Node.java:165-176 | the printed form of a named tree has balanced parentheses, never closes one early, and keeps commas inside parentheses below a sibling-free root |
| NodeParse.LostGroup | h5/src/Node.java:119-124 | as written, "(B)A(C)" passes validation and parses to A(C), losing B; rejecting a second group of children refuses it |
| NodeParse.NamesConcatenate | h5/src/Node.java:100-112 | a run of consecutive non-delimiter items is appended to the current name in order, one item at a time, before the build goes on from the end of the run |
| NodeParse.BuildKeepsLetters | h5/src/Node.java:99-155 | with a second group rejected, each build keeps every letter it reads in the names it builds |
| NodeParse.ParseKeepsLetters | h5/src/Node.java:24-155 | with a second group rejected, a parsed tree's names hold exactly the input's non-delimiter characters |

## Left out

- Null arguments (a null array, string or stack) and their exceptions: sequences and strings are values, so they cannot be null.
- Exception messages: an error records only its kind and the data it reports.
- `displayCharFrequenciesAndCodes`, the printing in every `main`, and `Huffman`'s commented-out second test: these are output only.
- The JDK `HashMap` iteration order and the `PriorityQueue` heap's tie-breaking: these are JDK internals. The iteration order becomes a parameter, and every property holds for any order. The tie-breaking becomes the fixed first-lightest rule, and the properties of the build are proved for that rule.
- HuffmanExample.ExampleHuffman: the tree is the one the first-lightest tie rule builds. The JDK heap polls A and F, then E and B, then D and C, and builds ((A,F),((E,B),(D,C))), with A coded 00 and F coded 01. That tree has the same code lengths, two of 2 bits and four of 3, so `bitLength` is 16 for it as well; the individual codes are not.
- HuffmanExample.ExamplePackedFails: the decoded data is computed for the first-lightest tree. Under the JDK heap's tree the codes pack to the bytes 0, 5, 7, 6, 4, 1, whose 48 bits decode to 23 symbols. That is again not "ABCDEF", but the model does not prove it for that tree.
- HuffmanFrequencies.Frequencies: counts are unbounded, so the model ignores 32-bit overflow of a count above 2^31 - 1 bytes.
- HuffmanCodec.BitLengthIsEncodedLength: the sum is unbounded and does not model the 32-bit overflow of `bitLength` on very large inputs.
- InsertionSorts.UpperBound: computes the midpoint `(left + right) / 2` unbounded. In Java the sum overflows `int` once it passes 2^31 - 1, which needs an array of more than 2^30 elements.
- InsertionSorts.BinarySearch: computes the midpoint `(low + high) / 2` unbounded, with the same overflow left out for arrays of more than 2^30 elements.
- QuickSorting.Partition: computes the midpoint `(i + j) / 2` unbounded, with the same overflow left out for arrays of more than 2^30 elements.
- RpnInterpret.Run: its own contract states the size of the resulting stack and the kind of failure, not the values. The values are stated by RpnReference.RunConcat, RpnReference.RunExpr and RpnReference.InterpretExpr, for token lists that spell an expression.
- LongText.ParseLong: accepts ASCII digits only. `Long.parseLong` also takes digits of other Unicode scripts.
- LongText.Words: splits on the six ASCII whitespace characters `\s` matches; the empty tokens `split` can return are left out, since `interpret` skips them.
- Split on characters: `s.split("")` splits between UTF-16 code units. The model splits between Dafny characters, which differ only for characters outside the Basic Multilingual Plane.
- `equals` against null or another class: the model compares two stacks only.
- The `Node` constructors, the static `sb` field and the `Huffman.Node` constructors are plain field assignment. They become datatype constructors.
- The shared static `freq` array of `countSort`: each call starts by zeroing it, so the model gives every call its own counts.
- `radixSort` orders negative keys after non-negative ones. Its documentation restricts it to non-negative keys; the model proves the unsigned order and ascending order for non-negative input.
- `Quaternion` and the graph task test: they are not part of this model.

## Findings

| source | as written | input that shows it | evidently intended | confidence | as-written member | corrected member |
|---|---|---|---|---|---|---|
| h7/src/Huffman.java:115-153 | `encode` parses each code as a base-2 number into one byte, and `decode` reads every byte back as eight bits | "AB": codes "0" and "1" pack to the bytes 0 and 1, which decode to fifteen A's and a B | the codes concatenated into a bit sequence, and decoding that sequence gives back the input | not executed | HuffmanPacking.PackedRoundTripFails | HuffmanCodec.HuffmanRoundTrip |
| h5/src/Node.java:119-124 | a second `(` after a named node builds a new first child over the existing one, and nothing rejects it once the input is used up | "(B)A(C)" parses to A(C): B is lost | reject a second group of children for one node, so every name in the input ends up in the tree | not executed | NodeParse.LostGroup | NodeParse.ParseKeepsLetters |
