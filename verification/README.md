# Huffman compression codec in Dafny

A model of the codec in `HuffmanCoding` (huffman.cpp). Compression counts how often each
byte occurs. It then builds a Huffman tree by repeatedly merging the two lightest queue
entries, and derives each symbol's code as its root-to-leaf path (0 = left, 1 = right).
The container it writes holds:

1. the tree in pre-order (`'0'` marks an internal node; `'1'` plus the raw symbol byte marks a leaf);
2. a `'\n'` separator;
3. one byte holding the pad count (0..7);
4. the concatenated codes, padded with zero bits to whole bytes and packed most significant bit first.

Decompression reads the tree back, skips the separator if it is present, reads the pad
byte, expands the data bytes to bits and drops the padding. It then walks the tree bit by
bit, emitting a symbol at each leaf and returning to the root.

Everything is a pure function or a loop over immutable values. Files:

- `tree.dfy`: `CodeTree`, the `Tree` datatype (`Leaf(sym) | Node(left, right)`, so every node has 0 or 2 children), leaf sets and root-to-leaf paths.
- `frequency.dfy`: `Frequency`, the counting loop against a multiset reference.
- `treebuilder.dfy`: `TreeBuilder`, the priority queue as a sequence of weighted trees, one merge step, and the merge loop with its invariants.
- `codes.dfy`: `Codes`, `buildCode` as a code table, plus encoding an input as one bit string.
- `treeformat.dfy`: `TreeFormat`, `writeTree` / `readTree`.
- `bitpacking.dfy`: `BitPacking`, the pad count, MSB-first packing and unpacking, and pad stripping.
- `decoding.dfy`: `Decoding`, the decode walk as a function and as the source's loop.
- `codec.dfy`: `Codec`, the container, `compress` and `decompress`, and a worked "aaabb" example.
- `corrected.dfy`: `CorrectedCodec`, the codec with the single-symbol defect (see Findings) repaired.
- `wrappers.dfy`: `Option`, `Result` and the codec's error cases.

Symbols are bytes 0..255 (`Byte`); bits are `bool` (`false` is `'0'`).

In these places the model follows what huffman.cpp does:

- A decode walk that ends part-way through a code is not an error. The leftover bits are ignored (`Decoding.WalkStaysInternal`).
- A lone-leaf tree gets the empty code, not a one-bit code (see Findings).
- The separator is optional on reading: it is skipped only when the byte after the tree is `'\n'`.
- A marker byte other than `'1'` reads as an internal node.
- The pad byte is honoured only when it is 1..8 and that many bits exist.

The priority queue's tie order is implementation-defined in the source. The model fixes it:

- the initial queue holds one leaf per symbol, in ascending symbol order;
- a pop takes the first entry of least weight;
- a merged node goes to the back of the queue.

`TreeBuilder.MinIndex` and `TreeBuilder.LeafQueue` state this rule, and `Codec.AaabbExample` uses the tree it builds. The contracts of `TreeBuilder.BuildTree`, `TreeBuilder.HuffmanTree` and `Codec.Compress` do not depend on it, and `TreeBuilder.MergeStep` states the popped pair only as the two lightest entries.

## Model

| member | source | states |
|---|---|---|
| Frequency.CountFrequencies | huffman.cpp:102-104 | a byte is a key exactly when it occurs in the input, and its count equals its number of occurrences (multiset multiplicity); an empty input gives an empty table |
| Frequency.FrequencyTotal | huffman.cpp:102-104 | the counts of the frequency table add up to the input length |
| TreeBuilder.MinIndex | huffman.cpp:33-37 | the chosen entry weighs no more than any other entry, and every earlier entry weighs strictly more (first-minimum tie rule) |
| TreeBuilder.LeafQueue | huffman.cpp:113-114 | the initial queue has one leaf per counted symbol, weighted by its count, in strictly ascending symbol order; its symbols are exactly the counted ones and its weights sum to the total count |
| TreeBuilder.LeafQueueInvariant | huffman.cpp:113-114 | a queue of distinct leaves weighted by their counts satisfies the queue invariant (weights are subtree frequencies, no symbol twice) |
| TreeBuilder.MergeStep | huffman.cpp:116-123 | the queue shrinks by exactly one; the two popped entries are the lightest and the second lightest, and everything else is left in the queue; the pushed node has the first popped on the left, the second on the right, and the sum of their weights; total weight, symbol set and the queue invariant are preserved |
| TreeBuilder.BuildTree | huffman.cpp:113-125 | the merge loop ends with one root whose leaves are exactly the counted symbols, each on one leaf, and whose frequency is both the sum of its leaves' counts and the sum of all counts |
| TreeBuilder.HuffmanTree | huffman.cpp:102-125 | an empty input is refused with EmptyInput and builds no tree; otherwise the root carries each distinct input byte on exactly one leaf, weighs the input length, and is internal exactly when there are two or more distinct bytes |
| Codes.CodesFrom | huffman.cpp:45-54 | every leaf symbol gets an entry, and each entry extends the walked prefix by a path that leads from this subtree to a leaf labelled with that symbol |
| Codes.CodeTable | huffman.cpp:45-54 | the table's keys are the tree's symbols, and each code is a root-to-leaf path ending at its own symbol |
| Codes.CodeTablePrefixFree | huffman.cpp:45-54 | no code is a prefix of a different symbol's code |
| Codes.CodeTableNonEmpty | huffman.cpp:49-53 | below an internal root every code is non-empty; a lone leaf root gets the empty code |
| Codes.CodeTableIsPaths | huffman.cpp:45-54 | with distinct symbols, `p` is the code of `s` if and only if following `p` from the root ends on the leaf `s` |
| TreeFormat.Parse | huffman.cpp:67-81 | a successful read leaves a strict suffix of the input unread |
| TreeFormat.ParseSerialize | huffman.cpp:56-81 | reading a written tree followed by any bytes returns the same tree and leaves exactly those bytes unread |
| TreeFormat.ParseExtend | huffman.cpp:67-81 | bytes after an accepted tree do not change what is read; they stay unread |
| TreeFormat.TruncatedTreeRejected | huffman.cpp:67-76 | every strict prefix of a written tree is rejected as truncated |
| BitPacking.PadCount | huffman.cpp:140 | the pad count lies in 0..7 and brings the bit count to a multiple of 8; it is 0 exactly when the count already is a multiple of 8 |
| BitPacking.PadBits | huffman.cpp:140-141 | the padded string has a length divisible by 8, starts with the original bits, and the added bits are all zero |
| BitPacking.BitsValue | huffman.cpp:145 | a group of n bits has a value below 2^n, and its first bit is the most significant: it is set exactly when the value is at least 2^(n-1) |
| BitPacking.ValueBits | huffman.cpp:192-193 | a value below 2^w gives exactly w bits, most significant first: the first is set exactly when the value is at least 2^(w-1) |
| BitPacking.ValueBitsOfBitsValue | huffman.cpp:145-146 | writing a bit group's value back as bits restores the group |
| BitPacking.BitsValueOfValueBits | huffman.cpp:192-193 | reading back the bits of a value restores the value |
| BitPacking.Pack | huffman.cpp:143-147 | a bit string of length 8k packs to exactly k bytes |
| BitPacking.Unpack | huffman.cpp:191-194 | every byte expands to exactly 8 bits |
| BitPacking.UnpackPack | huffman.cpp:143-147 | expanding packed bytes restores the byte-aligned bit string |
| BitPacking.PackUnpack | huffman.cpp:191-194 | packing the expansion of bytes restores the bytes |
| BitPacking.PadRoundTrip | huffman.cpp:195-196 | padding, packing, unpacking and stripping the recorded pad count gives back the encoded bits |
| Decoding.Walk | huffman.cpp:204-213 | the walk emits at most one symbol per bit, and only symbols that label leaves of the tree |
| Decoding.DecodeLoop | huffman.cpp:204-213 | the per-bit loop with its reset to the root computes the reference walk and fails on a leaf root with data bits; what it emits is at most one symbol per bit, each a symbol of the tree |
| Decoding.WalkCode | huffman.cpp:204-213 | walking one complete code emits its symbol and returns to the root |
| Decoding.WalkEncoded | huffman.cpp:204-213 | walking the codes of an input, for any table of root-to-leaf paths, emits the input in order, then whatever the following bits emit |
| Decoding.WalkStaysInternal | huffman.cpp:204-213 | bits that end part-way through a code emit nothing and raise no error |
| Decoding.DecodeEncoded | huffman.cpp:204-213 | for an internal root carrying every input byte, decoding the input's encoding, even with a trailing partial code, returns exactly the input |
| Codec.ReadFrameOfFrame | huffman.cpp:174-196 | reading a container gives back its tree and the unpadded code bits |
| Codec.ContainerRoundTrip | huffman.cpp:167-213 | a container built from an internal-root tree carrying every input byte decompresses to the input |
| Codec.TruncatedContainerRejected | huffman.cpp:174-187 | cutting a container anywhere before its pad byte makes decompression fail |
| Codec.SingleSymbolLost | huffman.cpp:49-50 | a lone-leaf tree makes every run of its one symbol decompress to the empty output, not the input |
| Codec.Compress | huffman.cpp:94-147 | an empty input fails with EmptyInput and only then; with two or more distinct bytes the container decompresses to the input; with one distinct byte it decompresses to nothing |
| Codec.AaabbExample | huffman.cpp:134-147 | "aaabb" gives the container bytes 30 31 62 31 61 0A 03 E0 (hex), which decompresses to "aaabb" |
| CorrectedCodec.CodeTableFixed | huffman.cpp:49-50 | every leaf symbol, a lone leaf included, gets a non-empty code |
| CorrectedCodec.ContainerFixedRoundTrip | huffman.cpp:204-213 | with the repair, every input whose bytes are in the tree round-trips, a run of one byte value included |
| CorrectedCodec.CompressFixed | huffman.cpp:94-147 | with the repair, an empty input fails with EmptyInput and every other input decompresses to itself |

## Left out

- The interactive menu in `main` (huffman.cpp:231-277): console input and output only.
- `get_file_size` (huffman.cpp:14-21): file-handle I/O.
- Opening, closing and error messages of the streams: the input and the output are byte sequences. A failure to open a file is outside the model.
- Verbose statistics: timing, the floating-point compression ratio and the printing (huffman.cpp:152-164, 218-227).
- The `treeNodes` / `maxDepth` counters (huffman.cpp:47-48): they only feed the statistics.
- `freeTree` and the destructor (huffman.cpp:83-92): immutable datatypes need no deallocation.
- The `root` field and the `huffmanCode` map persist across calls on one `HuffmanCoding` object. `main` makes one call, so each operation here builds its own tree and table.
- The heap internals of `priority_queue` and their tie order: replaced by the documented first-minimum rule.
- `Node::freq` and the counts are 32-bit signed `int`s. An input over 2 GiB overflows `freqMap[ch]++` (huffman.cpp:104) or `left->freq + right->freq` (huffman.cpp:119). Signed overflow is undefined behaviour in the source, so it is not modelled and weights here are unbounded.
- Symbols are `char` in the source and are written and read back verbatim. They are modelled as unsigned bytes, which round-trip the same way.
- The decode loop's `else continue` for a bit character other than '0' and '1' (huffman.cpp:208): the expanded bit string only ever holds '0' and '1'.
- TreeFormat.Parse returns `None` on any truncation. `readTree` gives up only at the top level and otherwise returns a node with null children (huffman.cpp:77-79). The stream is then at end of file, so the read of the pad byte fails (huffman.cpp:183-187) and `decompress` aborts in both cases. The model reports that case as TruncatedTree rather than as a missing pad byte.
- Decoding.DecodeLoop: on a lone-leaf root with data bits, the source dereferences a null child, which is undefined behaviour. The model returns the NullChild error instead of claiming a result.
- Optimality of the tree (minimum total code length) is not proved. Only the greedy choice of the two lightest entries is stated.

## Findings

| source | as written | input that shows it | evidently intended | confidence | as-written member | corrected member |
|---|---|---|---|---|---|---|
| huffman.cpp:49-50 | a tree that is one leaf gives its symbol the empty code, so nothing is encoded and the data section is empty | "aaa" (any non-empty run of one byte value) compresses to `1a\n` and a zero pad byte, which decompress to an empty file | a one-bit code for a lone leaf, and a decoder that emits the symbol once per bit, so every non-empty input round-trips | high; not executed | Codec.SingleSymbolLost | CorrectedCodec.ContainerFixedRoundTrip |
