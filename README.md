# Huffman packer of cryptor, in Dafny

cryptor compresses an executable with a Huffman code before encrypting it.
This project models the compressing half: the binary min-heap of `bheap.c`,
and the Huffman encoder of `huff.c`. That encoder counts byte frequencies,
builds the code tree with the heap, assigns every byte its code, and writes
the length, the tree and the encoded input into the caller's buffer. The
project then proves properties of the model.

How the C program's state becomes Dafny:

- **Node pool.** The `malloc`ed `bheap_node` records live in an arena
  `mem: seq<Node>`. A pointer is an index into it and NULL is `None`.
  `bheap_insert` copies the node it is given, so it appends to the arena.
  The two `parent` writes of `build_tree` rewrite two arena entries.
- **Heap.** The `bheap` struct is the class `BHeap.Heap`. It has the fields
  `heapSize`, `numNodes` and `nodes`, where `nodes` is an array of node
  addresses, 1-indexed as in C. `realloc` allocates a fresh array and copies
  the prefix.
- **Walkers.** `get_alphabet` and `write_tree` walk the tree through its
  `left`, `right` and `parent` pointers. They are methods over the arena
  with loop invariants. Each invariant ties the walker's position to a
  pre-order walk of the abstract tree `HuffTree.Tree` that the arena
  describes (`Arena.TreeOf`).
- **Encoding.** `encode` is a method over the caller's `array<byte>`. The
  pending byte and its free-bit counter (`byte`/`bit_cnt`, and
  `byte`/`bits` in `write_tree`) are tied to the bits emitted so far by the
  predicate `Bits.Writer`.
- **Output.** What `huffman_encode` produces is a function of the input,
  `Huffman.Output`: four length bytes, the packed serialised tree, then
  the packed codes. The main theorem, `Huffman.HuffmanEncode`, says the
  method writes exactly that.
- **Decoder.** The source has no decoder. The module `HuffDecode` defines
  one from the output format, and `Huffman.RoundTrip` proves that it reads
  every output back as the input.

Edge cases, as the code handles them:

- **Single distinct byte.** The root is then a leaf. `get_alphabet`
  records it with the code built so far, which is empty, size 0
  (huff.c:98-105). `encode` therefore writes no code bits at all.
  `Huffman.SingleLeafCode` states this. The output still decodes, because
  the length field carries the byte count (huff.c:254-255).
- **Input length.** `huffman_encode` takes the length as a `uint32_t`
  (huff.c:232), and the length field written first is those four bytes
  (huff.c:254-255). The model requires `|input| < 2^32`.
- **Empty input.** `get_stat` inserts no leaf, so `build_tree` skips its
  loop and returns `heap->nodes[1]` (huff.c:74). That slot of a new heap
  was never written. The model excludes the empty input.

## Model

| member | source | states |
|---|---|---|
| BHeap.BitOfSmeared | bheap.c:14-18 | bit `i` of the smeared value is set exactly when some bit of the original in positions `i` to `i + n - 1` is |
| BHeap.OrShiftRight | bheap.c:14-18 | one `v \|= v >> k` step turns a value smeared over `k` positions into one smeared over `2k` |
| BHeap.SmearLow32 | bheap.c:13-18 | the five steps with shifts 1, 2, 4, 8 and 16 smear `v - 1` over 32 positions |
| BHeap.NextPowerOfTwo | bheap.c:12-21 | the result is `v - 1` with its bits smeared right by 1, 2, 4, 8 and 16 places, plus one, modulo 2^64; for `v <= 2^32` it is the least power of two `>= v` |
| BHeap.NextPowerOfTwoMissesAbove32Bits | bheap.c:12-21 | for `v = 2^32 + 1` the as-written result is not a power of two |
| BHeap.NextPowerOfTwo64 | bheap.c:12-21 | with the smear carried to 32 places, the result is the least power of two `>= v` for every `v` up to 2^63 |
| BHeap.ClearLowestBit | bheap.c:26 | `h & (h - 1)` is zero exactly when `h` is a power of two |
| BHeap.RoundHeapSize | bheap.c:24-27 | for every `size_t` request: below 8 it gives 8, a power of two is kept, anything else gives the as-written `next_power_of_two` result; for requests up to 2^32 the result is the least power of two at or above the request |
| BHeap.Heap.constructor | bheap.c:23-42 | for requests up to 2^32, the new heap is empty; its capacity is 8 when asked for less than 8, otherwise the least power of two `>=` the request; the array has that many slots |
| BHeap.Realloc | bheap.c:47 | the new array has the requested size and keeps every old slot that fits |
| BHeap.Heap.Grow | bheap.c:45-52 | the capacity doubles, the stored slots and the heap's contents are unchanged, and the heap stays ordered |
| BHeap.GrowKeeps | bheap.c:47-51 | a copy that agrees on the used slots is as ordered as the original and holds the same nodes |
| BHeap.Heap.Push | bheap.c:57-59 | the copied node's address is stored in the next slot; every other slot is unchanged and the contents gain that address |
| BHeap.Heap.SiftUp | bheap.c:61-76 | after sifting, the heap is ordered, holds the same nodes, and every node it moved has a key greater than the new node's |
| BHeap.UpStep | bheap.c:68-75 | swapping a child that is smaller than its parent keeps the sift-up invariant one level higher |
| BHeap.UpDone | bheap.c:62-69 | when the climb stops (at the root, or at a parent whose key is not greater), the whole heap is ordered |
| BHeap.Heap.AddLast | bheap.c:54-76 | the arena gains the node, the count grows by one, the contents gain its address, and the heap is ordered |
| BHeap.Heap.Insert | bheap.c:44-79 | the node is copied to a fresh address; the count grows by one and the contents gain that address; the capacity doubles exactly when the heap was full; the heap stays ordered |
| BHeap.RootIsLeast | bheap.c:89 | in an ordered heap the root's key is the least of all the stored nodes' keys |
| BHeap.PopStart | bheap.c:89-91 | moving the last node to the root leaves the other nodes, less the old root, in slots 1 to n-1, with order intact below the root's children |
| BHeap.Heap.DetachRoot | bheap.c:89-100 | gives the least node, moves the last node to slot 1, and halves the capacity when it exceeds 8 and the count is a quarter of it |
| BHeap.Heap.Shrink | bheap.c:93-100 | the capacity halves and the first half of the slots is kept |
| BHeap.Heap.SmallestChild | bheap.c:104-125 | picks the child with a strictly smaller key than the node and no larger key than its sibling; the right child only when strictly smaller than the left; none when both are no smaller |
| BHeap.Heap.Swap | bheap.c:130-132 | the two slots exchange their values and nothing else changes |
| BHeap.SwapKeepsContents | bheap.c:130-132 | a swap of two used slots keeps the multiset of stored nodes |
| BHeap.DownStep | bheap.c:127-134 | swapping with the smallest child keeps the sift-down invariant one level lower |
| BHeap.DownDone | bheap.c:127-128 | when no child is smaller, slots 1 to n are ordered and hold the same nodes |
| BHeap.Heap.SiftDown | bheap.c:102-135 | slots 1 to n are ordered and hold the same nodes; the last slot, which still holds the moved node, is never touched |
| BHeap.DropLast | bheap.c:136 | dropping the last slot of an ordered heap leaves an ordered heap |
| BHeap.Heap.PopRoot | bheap.c:89-138 | gives the old root, which has the least key; the count falls by one, the contents lose that node, and the heap stays ordered |
| BHeap.Heap.Pop | bheap.c:81-139 | an empty heap gives NULL; otherwise gives the root (the least node) and drops it from the contents; the capacity halves only when at least two nodes are stored, the capacity exceeds 8, and the count is a quarter of it |
| Arena.TreeOfNode | bheap.h:6-12 | an arena node is an internal tree node exactly when it has a child pointer |
| Arena.AddrAtTree | bheap.h:6-12 | following a path of child pointers from a node reaches the node of the subtree at that path |
| Arena.ChildLinks | bheap.h:6-12 | the child reached by a step names its parent as its `parent` |
| Arena.RootParent | bheap.h:6-12 | within a root's tree, the `parent` pointer is NULL exactly at the root |
| HuffBuild.CountBytes | huff.c:16-19 | the table holds, for each byte value, how often it occurs in the input |
| HuffBuild.CountIsMultiplicity | huff.c:18-19 | the recursive count of a byte is its multiplicity in the input |
| HuffBuild.WeightAll | huff.c:18-19 | the counts of all 256 byte values add up to the input's length |
| HuffBuild.InsertLeaf | huff.c:29-38 | inserting the leaf of a byte that occurs extends the loaded heap by that leaf |
| HuffBuild.LoadLeaf | huff.c:25-39 | one round of the leaf loop skips an absent byte or inserts its leaf |
| HuffBuild.GetStat | huff.c:11-46 | the arena holds one leaf per byte that occurs, with its count, in byte order; the heap is ordered and holds them all; the forest's weight is the input length and its bytes are the bytes present |
| HuffBuild.PresentOnce | huff.c:25-28 | a byte gets a leaf exactly when it occurs in the input, and at most one |
| HuffBuild.PresentSize | huff.c:25-39 | a non-empty input gives between 1 and 256 leaves |
| HuffBuild.LeavesCount | huff.c:25-39 | the number of leaves is the number of distinct bytes present |
| HuffBuild.PopPair | huff.c:51-57 | the first node popped has the least key in the heap, and the second the least of the rest; both leave the contents |
| HuffBuild.SetParentsFrame | huff.c:70 | the two parent writes change only the `parent` fields of the two children |
| HuffBuild.Merge | huff.c:59-70 | merging two roots under a new node keeps the arena well linked and the forest's total weight and bytes |
| HuffBuild.MergedTrees | huff.c:59-70 | the new node's tree has the first popped node's tree on the left and the second's on the right |
| HuffBuild.MergeLeast | huff.c:50-71 | one round adds one node whose children are the two least roots; the heap holds exactly the forest's roots; weight and bytes are unchanged |
| HuffBuild.BuildTree | huff.c:48-80 | the loop ends with one root, the only parentless node, whose frequency is the forest's total weight and whose tree's leaves are exactly the forest's bytes; earlier arena nodes keep their links and frequencies; every node it adds joins two least roots of the forest before it |
| HuffBuild.GreedyStep | huff.c:50-72 | a round that joins the two least roots keeps every earlier node's greedy choice and adds a node whose children are two distinct least roots |
| HuffBuild.JoinsLast | huff.c:51-70 | the node one round adds joins the least root and the least of the remaining roots of the forest before it |
| Arena.Unroot | huff.c:70 | giving a root a parent removes it from the forest's roots |
| Arena.AddRoot | huff.c:67 | an inserted parentless node is a new root of the forest |
| Arena.SoleRoot | huff.c:74 | when one root is left, its frequency is the forest's weight and its tree holds the forest's bytes |
| HuffTree.PathWithinHeight | huff.c:93-96 | every path in a tree is at most the tree's height long |
| HuffTree.PreorderWithin | huff.c:93-96 | every node of the walk is within `k` steps of the root exactly when `k` is at least the height |
| HuffTree.AssignCodes | huff.c:87-136 | the walk gives each leaf's byte the code whose bits are the leaf's path and whose size is the path's length |
| HuffTree.AssignKeeps | huff.c:99-102 | table entries of bytes that label no leaf are left unchanged |
| HuffTree.CodeIsPath | huff.c:98-102 | the bits of a byte's code are the path to its leaf (0 left, 1 right) |
| HuffTree.LeafPathsPrefixFree | huff.c:98-117 | the path of one leaf is never a prefix of another leaf's path |
| HuffTree.CodesPrefixFree | huff.c:87-136 | no two distinct bytes' codes are prefixes one of the other |
| HuffTree.SerializeIsWalk | huff.c:143-189 | the pre-order visits, as bits, are the serialised tree |
| HuffTree.SerializeLength | huff.c:144-182 | a tree with `L` leaves serialises to `10L - 1` bits |
| HuffWalk.CodeDown | huff.c:114-116 | `code <<= 1` on 32 bits appends a 0 to the path's code (for paths under 32 steps) |
| HuffWalk.CodeSibling | huff.c:107-108 | `code \|= 1` turns the code of a left child into that of its right sibling |
| HuffWalk.CodeUp | huff.c:124-126 | `(code ^ 1) >> 1` turns the code of a right child into its parent's |
| HuffWalk.Descend | huff.c:113-117 | going to the left child keeps the walk invariant and advances the walk |
| HuffWalk.LeafRoot | huff.c:99-105 | a lone root leaf gets the empty code and the table is complete |
| HuffWalk.LeafSibling | huff.c:106-109 | after a left leaf is coded, the walk continues at its right sibling |
| HuffWalk.LeafRises | huff.c:110-112 | after a right leaf is coded, the walk turns upward |
| HuffWalk.RiseRoot | huff.c:121-122 | rising back to the root means every leaf has been coded |
| HuffWalk.RiseUp | huff.c:123-126 | rising from a right child keeps the walk invariant |
| HuffWalk.RiseSibling | huff.c:127-131 | rising from a left child moves on to its right sibling |
| HuffWalk.GetAlphabet | huff.c:87-136 | returns -1 exactly when the tree is higher than BIT_LIMIT; otherwise returns 0, and the table is the old table with each leaf's byte given its path as code |
| Bits.WriterStart | huff.c:140 | an empty buffer with an empty pending byte and 8 free bits has emitted nothing |
| Bits.EmitOne | huff.c:145-146 | setting the next free bit of the pending byte emits a 1 |
| Bits.EmitZero | huff.c:173 | only decrementing the free-bit count emits a 0 |
| Bits.WriterFlush | huff.c:184-188 | storing a full pending byte and starting afresh emits nothing new |
| Bits.WriterFinish | huff.c:191-192 | the buffer, plus the pending byte when partly filled, is the emitted bits packed MSB-first with zero padding |
| Bits.UnpackPack | huff.c:191-192 | unpacking the packed bits gives them back followed by the zero padding |
| Bits.PackAppend | huff.c:256-257 | packing whole bytes of bits one after another is packing their concatenation |
| Sink.Flush | huff.c:150-154 | stores the pending byte at the next position of the buffer and resets it |
| Sink.FlushIfFull | huff.c:184-188 | stores the pending byte exactly when no free bit is left |
| Sink.FlushLast | huff.c:191-192 | the bytes written are exactly the emitted bits, packed |
| HuffWrite.SymbolBit | huff.c:161 | `(chr >> i) & 1` is bit `8 - i` of the byte, MSB first |
| HuffWrite.PutSymbolBit | huff.c:159-161 | one step of the inner loop emits the next bit of the leaf's byte |
| HuffWrite.SymbolSent | huff.c:156-157 | when the inner loop stops, a 1 and all 8 bits of the byte have been emitted |
| HuffWrite.PutLeaf | huff.c:145-162 | a leaf emits a 1 followed by its byte's 8 bits, MSB first |
| HuffWrite.WalkDown | huff.c:172-174 | an internal node on the way down emits a 0 and moves to its left child |
| HuffWrite.WalkAcross | huff.c:166-167 | from a left child the walk moves to its right sibling |
| HuffWrite.WalkUp | huff.c:168-170 | from a right child the walk moves up to its parent |
| HuffWrite.WalkEnd | huff.c:175-176 | reaching the parentless root on the way up ends the walk |
| HuffWrite.WriteLeaf | huff.c:144-171 | the bits emitted so far are those of the walk through this leaf; the walk stops exactly when the tree is complete |
| HuffWrite.WriteInner | huff.c:172-182 | an internal node emits its 0 on the way down, and nothing on the way up |
| HuffWrite.WalkStep | huff.c:143-189 | one round of the walk keeps the writer invariant, or stops with the whole serialised tree emitted |
| HuffWrite.WriteTree | huff.c:138-195 | writes the serialised tree, packed, at the buffer position, `(10L + 6) / 8` bytes for `L` leaves, and returns that length; nothing else in the buffer changes |
| HuffEncode.EncodedStep | huff.c:202-206 | encoding one more input byte appends that byte's code bits |
| HuffEncode.EncodedAppend | huff.c:202-224 | the encoding of two inputs joined is their encodings joined |
| HuffEncode.CodeTail | huff.c:207-216 | a code's bits split into its high `size - sz` and low `sz` bits |
| HuffEncode.LastByte | huff.c:209-210 | on an 8-bit accumulator, `byte \| (code << bit_cnt)` adds the remaining code bits below the filled ones |
| HuffEncode.FillByte | huff.c:213-214 | on an 8-bit accumulator, `byte \| (code >> sz)` fills the free bits with the next code bits |
| HuffEncode.PutLast | huff.c:208-211 | when the rest of the code fits, it is emitted whole and the free count drops by its size |
| HuffEncode.PutFill | huff.c:212-216 | when it does not fit, the free bits are filled with the code's next bits |
| HuffEncode.PutChunk | huff.c:207-222 | one round of `while(sz)` emits the next code bits and leaves fewer bits to go |
| HuffEncode.PutCode | huff.c:203-223 | writes one input byte's code bits, MSB first, after those already emitted |
| HuffEncode.Encode | huff.c:197-230 | writes the concatenated codes of the input bytes, packed, at the buffer position, and returns that length; nothing else in the buffer changes |
| Huffman.PutLength | huff.c:254-255 | the first four bytes are the input's length, least significant first; the rest is unchanged |
| Huffman.LE32RoundTrip | huff.c:254 | the length field reads back as the length |
| Huffman.Build | huff.c:239-249 | the arena starts with the leaves of `get_stat` and has `2k - 1` nodes for `k` distinct bytes; every added node joins two least roots; the root is the only parentless node, its tree has exactly the input's distinct bytes as leaves, and its frequency is the input's length |
| Huffman.BuiltTree | huff.c:243 | the built tree's leaf bytes are distinct and are exactly the bytes of the input |
| Huffman.DistinctAtMost256 | huff.c:25-39 | a tree with distinct leaf bytes has at most 256 leaves |
| Huffman.SingleLeafCode | huff.c:98-105 | an input of one distinct byte gets the empty code and encodes to no bits |
| Huffman.TableFits | huff.c:93-96 | with the height within BIT_LIMIT, every input byte's code fits in BIT_LIMIT bits |
| Huffman.EncodedBound | huff.c:205-206 | codes of at most BIT_LIMIT bits make at most BIT_LIMIT bits per input byte |
| Huffman.OutputBound | huff.c:254-259 | the output takes at most `4 + 320 + 4n` bytes for an input of `n` bytes |
| Huffman.Layout | huff.c:254-257 | length, tree and codes lie one after another in the buffer, and the bytes after them are unchanged |
| Huffman.WriteOutput | huff.c:254-259 | given a buffer that holds the output, writes exactly the output (length, tree, codes), returns its length and leaves the rest of the buffer alone |
| Huffman.HuffmanEncode | huff.c:232-265 | the tree used is the one `build_tree` leaves in the arena, built from the leaves of `get_stat` by greedy least-pair merges; returns -1, changing nothing, exactly when that tree is higher than BIT_LIMIT; otherwise returns 0, and the buffer's first `out_len` bytes are the output, which decodes to the input |
| HuffDecode.ReadSerialize | huff.c:138-195 | reading a serialised tree gives the tree back, whatever follows it |
| HuffDecode.DecodePath | huff.c:98-117 | following a leaf's path from the root reads that leaf's byte |
| HuffDecode.DecodeCode | huff.c:98-102 | reading a byte's code gives the byte |
| HuffDecode.DecodeEncoded | huff.c:197-230 | reading the input's codes gives the input back, whatever follows |
| HuffDecode.UnpackParts | huff.c:256-257 | the packed tree and packed codes unpack to the tree, its padding, the codes and theirs |
| HuffDecode.ReadLayout | huff.c:256-257 | the packed tree followed by the packed codes reads as the codes' decoding |
| HuffDecode.DecompressLayout | huff.c:254-257 | the length field followed by the packed tree and codes decompresses to the decoded codes |
| Huffman.RoundTrip | huff.c:254-257 | what `huffman_encode` writes decompresses to its input |

## Left out

- Allocation failure: the model's `malloc` and `realloc` always succeed,
  so the `NULL` returns of `bheap_new` and `bheap_insert`, the `goto error`
  paths of `get_stat` and `build_tree`, `perror` and `fputs` are not
  modelled. In `bheap_pop` a failed shrinking `realloc` would keep the old
  array; the model always shrinks.
- `bheap_free` and `bheap_node_free` release memory only and have no
  observable result here.
- main.c (file mapping, the AES step, the loader) and aes.h are not part of
  this model.
- Integer widths: `size_t` frequencies, counts and lengths are unbounded
  naturals. They cannot overflow for inputs below 2^32 bytes, but wrap-around
  is not modelled. The `int` indices of the sift loops are naturals. The
  32-bit `code` and the 8-bit accumulator are modelled explicitly.
- Byte order: the length field is modelled as little-endian, the byte order
  of the machines the packer targets. `memcpy` of a `uint32_t` is
  native-endian.
- The `alphabet` array is uninitialised in C. The model starts from a table
  of empty codes; entries of absent bytes are never read.
- BHeap.Heap.constructor: requests above 2^32 are excluded. There the
  as-written `next_power_of_two` can give a capacity that is not a power
  of two (see the Findings row), which breaks the heap's invariant.
  `BHeap.RoundHeapSize` models the rounding for every request. The only
  call is `bheap_new(512)` in `get_stat`.
- Huffman.HuffmanEncode: on `-1` the model does not describe the partly
  filled alphabet (it is a local that is then discarded).
- Huffman.HuffmanEncode: requires a buffer of `4 + 320 + 4n` bytes, enough
  for every code of at most 32 bits. main.c allocates `8 + 512 + n`, which
  suffices only because a Huffman code is no longer than a fixed 8-bit code.
  That optimality is not proved.
- Huffman.HuffmanEncode: excludes the empty input (see above) and inputs of
  2^32 bytes or more, which a `uint32_t` length cannot pass.
- Huffman.HuffmanEncode: among roots of equal frequency, which two are
  merged depends on their heap positions. The contract states only that
  each merge takes a least root and a least remaining root, not which of
  several tied roots it takes.
- The decoder (module HuffDecode) is not part of the source. It is
  defined here from the output format only to state the round trip.
- Optimality of the code (the minimum weighted path length) is not stated.
  The model states how the tree is built: the two least-frequency roots are
  merged each round.

## Findings

| source | as written | input that shows it | evidently intended | confidence | as-written member | corrected member |
|---|---|---|---|---|---|---|
| bheap.c:12-21 | `next_power_of_two` smears the bits of `v - 1` by 1, 2, 4, 8 and 16 places only, although `size_t` has 64 bits | `v = 2^32 + 1` gives `2^33 - 1`, which is not a power of two, so `bheap_new` would create a heap whose capacity is not a power of two | the least power of two `>= v` for every `size_t` (one more step, `v \|= v >> 32`) | not executed; `bheap_new(512)` in `get_stat` never reaches it | BHeap.NextPowerOfTwoMissesAbove32Bits | BHeap.NextPowerOfTwo64 |
