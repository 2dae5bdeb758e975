# Huffman-compressed RRR sets and lazy-greedy seed selection

This project models in Dafny the two sequential cores that the Ripples influence-maximisation library uses to pick seed vertices from a collection of RRR sets (random reverse reachability sets: lists of vertex ids).

**1. The Huffman codec of `huffman.h`.** Vertex occurrence counts over all RRR sets give a Huffman tree. The tree is built in a node pool through a 1-indexed binary min-heap `qq` with fill mark `qend`. `build_code` then derives a code table: `code[c]` holds the root-to-leaf path of vertex `c`, left-aligned in a 64-bit word, and `cout[c]` holds its length.

Each RRR set is split in two:
- vertices with a short code are bit-packed into a byte buffer, through the byte pointer `p` and the count `lackBits` of free bits in the current byte;
- every other vertex is copied verbatim into `cpy`.

The decoder reads bits most-significant first and walks the tree. `DecompAndFind` runs one round of the greedy seed search over the compressed sets. It deletes the live sets that hold the current seed and counts the vertices of the others. It returns the first vertex of maximal count. `HuffmanFind` (both overloads) drives these rounds until `k` seeds are chosen or every set is covered.

**2. The lazy-greedy maximum coverage of `find_most_influential.h`.** The sequential overloads are modelled:
- occurrence counting, counter decrement and heap initialisation;
- in-place `swap_ranges` and `partition`;
- `PartitionIndices::operator+`, which merges two adjacent partitioned blocks;
- `FindMostInfluentialSet`.

`FindMostInfluentialSet` pops the vertex of highest key from a priority queue. It re-pushes stale entries with their current coverage. After each choice it partitions the sets that the chosen vertex covers past an `end` cursor, and then either subtracts their counts or recounts the rest.

The model keeps the source's form:
- The `HuffmanTree` is a class with array fields `pool`, `qq`, `code` and `cout` and counters `nNodes`, `qend` and `maxvtx`. Its methods (`NewNode`, `QInsert`, `QRemove`, the `InitByRRRSets` variants) update these in place.
- The heap sifts are `while` loops over `qq`.
- The encoders write into byte arrays.
- The decoder fills an output array.
- The greedy loops mutate counter and flag arrays.

Each method is proved against specification functions:
- `ToTree` reads the pool as a code tree;
- `PathTo` gives a symbol's path;
- `Encode` and `DecodeFrom` are the bit-level codec;
- `Coded` and `Copied` are the encoder's split of a set;
- `Occurrences` and `Coverage` count vertices;
- `Gain` and `Uncovered` measure the greedy objective.

The code length is stored in an `unsigned char`, so the model also bounds the tree's depth. Merging the two lightest roots keeps every subtree at least as heavy as the Fibonacci number two past its height (`TreeDepth.FibHeavy`). A tree over fewer than 2^64 entries is therefore less than 128 deep.

The properties the source relies on are then proved about those functions. They include prefix-freeness, decode-after-encode, that the packed bits of a set are the Huffman encoding of its packed vertices, that each greedy choice maximises the marginal coverage, and that partition is a permutation.

## Model

| member | source | states |
|---|---|---|
| BigEndian.LongToBytes | include/ripples/huffman.h:25-35 | writes exactly the eight bytes `b[p..p+8]`, most significant first, and leaves every other byte of the buffer unchanged |
| BigEndian.FromToBytes | include/ripples/huffman.h:25-35 | reassembling the eight written bytes most significant first gives back the word: the byte layout loses nothing |
| BigEndian.ToFromBytes | include/ripples/huffman.h:25-35 | every eight-byte sequence is the layout of exactly one word (the other half of the bijection) |
| BigEndian.BitIsShifted | include/ripples/huffman.h:937 | the bit the decoder tests with `(s[byteIndex] >> (7-r)) & 1` is bit r of the byte counted from the most significant end |
| BigEndian.ShiftLeftBits | include/ripples/huffman.h:160 | the left shift by a variable amount (written as repeated one-bit shifts) moves bit i+m of the word to bit i and clears the last m bits |
| BigEndian.ShiftRightBits | include/ripples/huffman.h:363 | the right shift by a variable amount moves bit i-m to bit i and clears the first m bits |
| BitBuffer.PutCode | include/ripples/huffman.h:341-410 | one packing step of the encoder loop: when the buffer holds the bits packed so far, afterwards it holds them followed by the n code bits. The cursor (`p`, `lackBits`) moves on by n bits, and the reported byte count grows by exactly the number of bytes those n bits newly touch |
| BitBuffer.PutAligned | include/ripples/huffman.h:341-359 | on a byte boundary the code word is written whole at `p` after the bits already packed |
| BitBuffer.PutPartial | include/ripples/huffman.h:361-410 | with `lackBits` free bits in the current byte, the code's high bits are OR-ed into it and, if the code is longer, the rest is written from the next byte; the buffer then reads as the old bits followed by the code |
| BitBuffer.NextCursor | include/ripples/huffman.h:343-376 | the byte pointer, free-bit count and `encodeSize` increment of the three branches (aligned, spilling, fitting) agree with a cursor at bit m+n |
| BitBuffer.CursorStep | include/ripples/huffman.h:343-376 | the `byteSize`/`byteSizep`/`lackBits` arithmetic of each branch lands the cursor on bit m+n and adds the ceiling of the new bits over 8 to the byte count |
| CodeTree.PrefixFree | include/ripples/huffman.h:154-189 | no leaf path of a code tree is a proper prefix of another leaf's path; equal-or-prefix paths name the same leaf |
| CodeTree.PathUnique | include/ripples/huffman.h:154-189 | in a tree with distinct leaf symbols, the only path that reaches symbol c is `PathTo(t, c)` |
| CodeTree.PathToLeads | include/ripples/huffman.h:154-189 | following `PathTo(t, c)` from the root reaches the leaf of symbol c |
| CodeTree.WeightedRoot | include/ripples/huffman.h:82-98 | in a tree whose inner nodes carry the sum of their children's frequencies, the root carries the sum of the leaf frequencies |
| CodeTree.RoundTrip | include/ripples/huffman.h:920-950 | decoding the concatenated codes of a symbol sequence yields exactly that sequence and consumes exactly its encoded length (decode after encode) |
| CodeTree.DecodePrefix | include/ripples/huffman.h:920-950 | decoding fewer symbols gives a prefix of decoding more: the decoder emits symbols in stream order |
| CodeTree.WalkPath | include/ripples/huffman.h:936-947 | walking the tree over bits that spell a leaf's path ends at that leaf exactly after the path |
| CodeWord.AlignedCode | include/ripples/huffman.h:157-161 | the accumulated path word, shifted left by 64 - len, holds the path left-aligned and zeros after it |
| CodeWord.AccumulatedAligned | include/ripples/huffman.h:171-177 | shifting in 0 for a left child and OR-ing 1 for a right child accumulates the path right-aligned in `out1` |
| CodeWord.AlignedLeft | include/ripples/huffman.h:174-176 | `out1 << 1 \| 0` extends the accumulated path by a left step |
| CodeWord.AlignedRight | include/ripples/huffman.h:177-178 | `out1 \| 1` turns the last left step into a right step |
| Huffman.HuffmanTree.constructor | include/ripples/huffman.h:58-80 | a new tree for `stateNum` vertices: `allNodes == 2*stateNum`, an empty pool and heap (`n_nodes == 0`, `qend == 1`) of `2*allNodes` slots, a zeroed code table of `stateNum` entries, and `maxvtx == 0` |
| Huffman.HuffmanTree.NewNode | include/ripples/huffman.h:82-98 | takes pool slot `n_nodes` and increments `n_nodes`; a nonzero frequency makes a leaf of symbol c, a zero one an inner node over a and b whose frequency is the sum of theirs |
| Huffman.HuffmanTree.QInsert | include/ripples/huffman.h:108-117 | `qend` grows by one and the heap holds the old entries plus n, still a min-heap on frequency |
| Huffman.SiftUp | include/ripples/huffman.h:111-116 | the sift-up loop turns a heap plus one new last slot into a heap over all slots holding the old entries plus the new node |
| Huffman.HuffmanTree.QRemove | include/ripples/huffman.h:119-146 | on a heap with no entries returns null and changes nothing; otherwise returns an entry of minimum frequency, removes exactly it, decrements `qend` and keeps a min-heap |
| Huffman.SiftDown | include/ripples/huffman.h:126-143 | the sift-down loop restores the heap order after the last entry moves to the front, without changing the entries |
| Huffman.HeapMin | include/ripples/huffman.h:119-146 | in a heap-ordered `qq`, the first entry is at most as heavy as every entry |
| Huffman.HuffmanTree.MergeTwo | include/ripples/huffman.h:222-223 | one round of the merge loop: the two lightest entries a and b leave the heap and a new inner node over them, carrying their summed frequency, enters it |
| Huffman.HuffmanTree.MergeAll | include/ripples/huffman.h:222-223 | the merge loop keeps the forest (its leaves and total weight) and ends with one root in `qq[1]`, the last node made, after n - 1 merges |
| Huffman.HuffmanTree.InsertLeaves | include/ripples/huffman.h:209-219 | the leaf loop puts one leaf per vertex of nonzero count into the pool and the heap, carrying that count, and reports the largest-index vertex of maximal count |
| HuffmanPool.ToTree | include/ripples/huffman.h:82-98 | the pool read from slot x is a code tree whose every inner node weighs the sum of its children, rooted at the weight of slot x |
| HuffmanPool.MergeDeepens | include/ripples/huffman.h:222-223 | merging the two lightest roots keeps every root of the heap Fibonacci-heavy, and keeps every inner root's heavier child no heavier than any root |
| TreeDepth.JoinHeavy | include/ripples/huffman.h:223 | a new node over a lighter left root and a heavier right root, where the left is no lighter than the right's heavier child, weighs at least the Fibonacci number two past its height |
| TreeDepth.ShallowRoot | include/ripples/huffman.h:168 | a Fibonacci-heavy tree that weighs less than 2^64 is less than 128 deep, so `(unsigned char)len` never wraps |
| HuffmanPool.MergeAdded | include/ripples/huffman.h:222-223 | replacing two roots of the forest by a new node above them keeps the forest's leaf multiset and total weight |
| Huffman.TwoLightest | include/ripples/huffman.h:223 | two successive minimum removals take out the two lightest entries, the first no heavier than the second |
| Huffman.BuildCode | include/ripples/huffman.h:154-189 | after the recursive walk from node n with path `path`, each symbol under n has its path's first word and its length mod 256 in the table, and every other entry is unchanged |
| Huffman.CodesFromRoot | include/ripples/huffman.h:226 | build_code from the root on a zeroed table yields the full code table: a symbol of the tree has `code == FirstWord(PathTo)` and `cout == len mod 256`, every other entry stays 0 |
| Huffman.TreeOfCounts | include/ripples/huffman.h:200-223 | when one root is left, its tree has exactly the vertices that occur in the sets as leaves, each once, carrying its occurrence count, and weighs the total number of occurrences |
| Huffman.HuffmanTree.InitByRRRSets | include/ripples/huffman.h:191-231 | builds the Huffman tree of the sets' occurrence counts (one root in `qq[1]`), fills the code table from it, and sets `maxvtx` to the largest-index vertex of maximal count |
| Huffman.HuffmanTree.InitByRRRSets2 | include/ripples/huffman.h:233-275 | as InitByRRRSets, and besides adds every vertex's occurrence count to `globalcnt` |
| Huffman.HuffmanTree.InitByRRRSets3 | include/ripples/huffman.h:277-313 | as InitByRRRSets, with the maximum scan starting from the tree's previous `maxvtx` |
| Frequencies.MaxVertexUnique | include/ripples/huffman.h:209-216 | the vertex the leaf loop reports is determined by the counts (and the start value when all are zero) |
| Frequencies.ScanStep | include/ripples/huffman.h:211-215 | one step of the `freq[i] >= max_freq` scan keeps the largest-index maximum of the prefix scanned |
| Frequencies.CountsOf | include/ripples/huffman.h:200-207 | the frequency array counts, for every vertex, its occurrences over all sets |
| Frequencies.TotalIsEntries | include/ripples/huffman.h:196-205 | the frequencies add up to `total_rrr_size`, the number of entries over all sets, which is the weight of the root |
| Frequencies.TotalPositive | include/ripples/huffman.h:222-226 | the total count is positive exactly when some vertex occurs, so the heap holds a root for build_code |
| Encoder.Split | include/ripples/huffman.h:335-421 | a set splits into its packed and its copied vertices: the counts add up to the set's length and the two multisets make up the set |
| Encoder.CodedPacks | include/ripples/huffman.h:340 | every packed vertex has a code length strictly between 0 and the limit |
| Encoder.CopiedUnpacked | include/ripples/huffman.h:414-418 | every copied vertex has a zero code length or one at least the limit |
| Encoder.PackSet | include/ripples/huffman.h:335-421 | the encoder loop over one set: the buffer holds the packed codes in order, `code_cnt` and `copy_cnt` count packed and copied vertices, `encodeSize` is the ceiling of the packed bits over 8, and `cpy` leads with the copied vertices in order |
| Encoder.PackedIsEncode | include/ripples/huffman.h:340-410 | with a code table built from a tree, the concatenated code bits of the packed vertices are their Huffman encoding |
| Encoder.PackedDecodes | include/ripples/huffman.h:920-950 | decoding `code_cnt` symbols from the packed bytes gives back exactly the packed vertices, in order, within `encodeSize` bytes |
| Encoder.PackedLength | include/ripples/huffman.h:452 | packed codes shorter than 33 bits take at most 32 bits each, so eight bytes per vertex always suffice |
| Encoder.PackedPrefix | include/ripples/huffman.h:789-791 | the first `encodeSize` bytes already hold all packed bits, so cutting the buffer there loses nothing |
| Encoder.NothingPacks | include/ripples/huffman.h:340 | when every code length is 0, the encoder packs no vertex and copies the whole set |
| Encoder.LeafRootCopiesAll | include/ripples/huffman.h:168 | for a one-leaf tree every code length is 0, so every vertex is copied |
| EncodeSets.EncodeRR | include/ripples/huffman.h:324-425 | the packing limit is 20: the output and counters advance by the encoding of the set, and `cpy` receives its copied vertices |
| EncodeSets.EncodeRR2 | include/ripples/huffman.h:427-540 | the packing limit is 33; besides encoding, every vertex's `globalcnt` grows by its occurrences in the set and the new `maxvtx` is exactly the one the `>=` replay over the set gives (`Replay`) |
| EncodeSets.Track | include/ripples/huffman.h:446-451 | the counting pass adds each vertex's occurrences to `globalcnt` and ends with `maxvtx` exactly as the `>=` rule replays it (`Replay`: after each increment the vertex takes over when its count reaches the current maximum's); that vertex's count is at least that of every vertex of the set and of the old maximum, and it stays global when it was |
| EncodeSets.EncodeRR22 | include/ripples/huffman.h:543-650 | moves `maxvtx` to the front of the set (a permutation), then encodes it; copies are kept only when `lossyFlag` is "N" |
| EncodeSets.MoveToFront | include/ripples/huffman.h:552-555 | swapping the first occurrence of `maxvtx` with position 0 is a permutation with `maxvtx` first, and a no-op when it is absent |
| EncodeSets.EncodeRR3 | include/ripples/huffman.h:651-760 | encodes the first `length` entries of `tmpR` with `maxvtx` moved to the front |
| EncodeSets.EncodeRRRSets | include/ripples/huffman.h:763-805 | every set i gets its packed bytes cut to `encodeSize`, its byte count, its packed count and its copy list cut to `copy_cnt` |
| EncodeSets.EncodeRRRSets2 | include/ripples/huffman.h:807-861 | appends each set's encoding to the output vectors, releases the sets from `blockoffset` on, counts every occurrence into `globalcnt`, and leaves `maxvtx` exactly where replaying the `>=` rule set by set leaves it (`ReplaySets`) |
| EncodeSets.ReplayedStep | include/ripples/huffman.h:822-835 | one more set encoded with the counts the earlier sets left extends the set-by-set replay of `maxvtx` by that set |
| Decoder.Decode | include/ripples/huffman.h:920-950 | fills `out[..targetLength]` with the first `targetLength` symbols the bit stream decodes to (for a leaf root, `targetLength` copies of its symbol) and leaves the rest of `out` |
| Decoder.Advance | include/ripples/huffman.h:936-947 | one bit moves the walk to the left (0) or right (1) child; a leaf emits its symbol and restarts at the root |
| Decoder.DecodeCheck | include/ripples/huffman.h:952-987 | for an inner root, sets `find_flag` exactly when `target` is among the decoded symbols, writes them up to its first occurrence only, and never clears the flag; a leaf root fills `out` and leaves the flag alone |
| HuffmanFind.ScanEntry | include/ripples/huffman.h:1023-1050 | for a live set, reports whether it holds `maxvtx` in its packed or copied part; if not, adds each of its vertices to `globalcnt` |
| HuffmanFind.FirstMaxIndex | include/ripples/huffman.h:1054-1061 | returns the smallest-index vertex of maximal count, or 0 when all counts are zero |
| HuffmanFind.DecompAndFind | include/ripples/huffman.h:1005-1066 | one round: deleted sets are skipped, a live set holding `maxvtx` is deleted and counted in `freq`, the others' vertices are counted, and the result is the first vertex of maximal count |
| HuffmanFind.EntryOfSet | include/ripples/huffman.h:1026-1046 | an encoded set reads back (decoded part plus copies) as exactly the set: same multiset, and it holds x exactly when the set does |
| HuffmanFind.RoundOnSets | include/ripples/huffman.h:1022-1050 | over sets that read back, one round deletes exactly the sets holding the seed, `freq` is the seed's marginal gain, and the uncovered count drops by that gain |
| HuffmanFind.FirstMaxIsGreedy | include/ripples/huffman.h:1054-1061 | on duplicate-free sets the counted vertex of maximal count is a greedy choice: no vertex covers more still-uncovered sets |
| HuffmanFind.FirstSeedIsGreedy | include/ripples/huffman.h:209-216 | on duplicate-free sets the `maxvtx` of initByRRRSets is a greedy first seed |
| HuffmanFind.SeedLoop | include/ripples/huffman.h:1373-1383 | the seed loop ends with k seeds or with every set covered; the covered count plus the uncovered count is the number of sets, and each later seed was the counted maximum of its round |
| HuffmanFind.HuffmanFind | include/ripples/huffman.h:1335-1393 | for sets of fewer than 2^64 entries in all (the `size_t` range of `total_rrr_size`): at most k seeds and stops early only when all sets are covered; the first seed is initByRRRSets's `maxvtx`; on duplicate-free sets every seed is a greedy choice |
| HuffmanFind.HuffmanFind2 | include/ripples/huffman.h:1395-1462 | as HuffmanFind (a built tree needs fewer than 2^64 entries in all), with the tree either built (`create_flag == 1`) or given; the sets are released; the first seed is the tree's `maxvtx` |
| HuffmanFind.Tree2 | include/ripples/huffman.h:1417-1420 | with `create_flag == 1` a new tree is built from the sets and its `maxvtx` is the largest-index vertex of maximal count; otherwise the given tree is used |
| HuffmanFind.EncodeFresh | include/ripples/huffman.h:1421 | encodeRRRSets2 from offset 0 into empty vectors: entry i of every output vector is the encoding of set i, and every set is released |
| HuffmanFind.BuiltShallow | include/ripples/huffman.h:196-226 | a tree built from sets with fewer than 2^64 entries in all is less than 128 deep, so every code length fits the `unsigned char` `cout` |
| HuffmanFind.CountEntry | include/ripples/huffman.h:1039-1045 | a set that does not hold `maxvtx` adds each of its packed and copied vertices, once per occurrence, to `globalcnt` |
| HuffmanFind.CountInto | include/ripples/huffman.h:1039-1045 | adds one to the counter of each listed vertex |
| HuffmanFind.SearchCopies | include/ripples/huffman.h:1030-1037 | the copy scan finds `maxvtx` exactly when it is among the first `copy_cnt` copies |
| Partition.SwapRanges | include/ripples/find_most_influential.h:64-67 | exchanges `[B,E)` with `[O,O+n)`, returns `O+n`, and changes no other position |
| Partition.Partition | include/ripples/find_most_influential.h:97-101 | permutes `[B,E)` so that every element satisfying P precedes every one that does not, returns the first failing position, and changes nothing outside the range |
| Partition.PartitionIndices.Add | include/ripples/find_most_influential.h:142-166 | merging two adjacent partitioned blocks partitions `[begin, O.end)` around the new pivot, is a permutation of that range and touches nothing else |
| Partition.ExchangeRuns | include/ripples/find_most_influential.h:152-163 | swapping the shorter of the failing run of the first block and the passing run of the second across yields one block split at the new pivot |
| Partition.RunsExchangedMultiset | include/ripples/find_most_influential.h:152-163 | exchanging two disjoint runs inside a range keeps the range's multiset and everything outside it |
| Counting.CountOccurrencies | include/ripples/find_most_influential.h:228-237 | adds to each counter the number of occurrences of its vertex over the sets, and to nothing else |
| FindMostInfluential.UpdateCounters | include/ripples/find_most_influential.h:320-328 | subtracts from each counter the occurrences of its vertex over the sets, exactly undoing CountOccurrencies over the same sets |
| FindMostInfluential.InitHeapStorage | include/ripples/find_most_influential.h:280-289 | sets `out[v]` to the pair (v, counter v) for every vertex and leaves later slots alone |
| FindMostInfluential.FindMostInfluentialSet | include/ripples/find_most_influential.h:364-441 | the sets are permuted only; at most k distinct seeds below n; `covered` is the number of sets holding a seed; the covered sets are exactly the last `covered` ones; fewer than k seeds only when all sets are covered; every seed is a greedy choice |
| FindMostInfluential.CoverSeed | include/ripples/find_most_influential.h:411-432 | after a choice the sets holding the seed lie in `[itr, end)`, `uncovered` drops by its coverage, and the counters (by subtraction or by recount) count the sets before `itr` |
| FindMostInfluential.CountersByUpdate | include/ripples/find_most_influential.h:418-420 | subtracting the counts of the moved sets leaves the counts of the sets still before `itr` |
| FindMostInfluential.CountersByRecount | include/ripples/find_most_influential.h:421-432 | zeroing and recounting the sets before `itr` leaves the same counters |
| FindMostInfluential.StaleRefreshed | include/ripples/find_most_influential.h:403-407 | re-pushing a stale entry with its current coverage keeps the queue invariant and strictly lowers the sum of keys, so the refresh loop ends |
| FindMostInfluential.TopIsGreedy | include/ripples/find_most_influential.h:399-410 | a top entry whose key is not stale names a vertex of maximal current coverage, which is its marginal gain over the seeds so far |
| FindMostInfluential.CounterIsGain | include/ripples/find_most_influential.h:395-436 | in every loop state the counter of a vertex is the number of uncovered sets it would newly cover |
| FindMostInfluential.EndIsUncovered | include/ripples/find_most_influential.h:395-436 | in every loop state `uncovered` equals the number of sets before `end`, which is the number of sets holding no seed |
| FindMostInfluential.ChoiceKeepsQueue | include/ripples/find_most_influential.h:399-435 | after a choice the remaining queue still holds every unchosen vertex, once, with a key at least its current coverage |
| FindMostInfluential.QueueNotEmpty | include/ripples/find_most_influential.h:399-400 | while fewer than k seeds are chosen and some set is uncovered, the queue is not empty |
| Counting.CountWherePerm | include/ripples/find_most_influential.h:415 | reordering the sets does not change how many satisfy a predicate |
| Counting.OccurrencesOfSorted | include/ripples/find_most_influential.h:408-410 | over sorted duplicate-free sets, the occurrence count of v is the number of sets containing v, the quantity `binary_search` tests |

## Left out

- The `omp_parallel_tag` overloads and the OpenMP variants are not modelled (`encodeRRRSets3`, `DecompAndFind3`, `DecompAndFind4`, the parallel `swap_ranges`, `partition`, `CountOccurrencies`, `InitHeapStorage`, `UpdateCounters`). They are concurrent; only the sequential code is modelled.
- The CUDA streaming RRR generator and the `libjson.py` configure probe are not part of this model. They are GPU scheduling and build tooling, not the algorithms.
- Debug output (`printf`, `std::cout`) and the execution record are left out; they do not affect results.
- `malloc`, `free`, `memset` and `SZ_ReleaseHuffman` are modelled by Dafny arrays and sequences. A NULL buffer is modelled as the empty sequence.
- `new_node2` and `printRR` are helpers outside the modelled functions.
- The second code word `code[c][1]`, the `out2` parameter of `build_code` and every `len > 64`, `byteSize > 8` and `bitSize > 64` branch are left out. The encoders only pack codes shorter than 20 or 33 bits, so these branches never run from them. `code` is modelled as one 64-bit word per vertex.
- Fixed-width integers are modelled as unbounded naturals. The exceptions are the `unsigned long` code words and the output bytes, which are bit-vectors, and `cout`, which is stored as the code length mod 256 (an `unsigned char`). Counters and sizes never overflow in the model.
- Variable shifts (`out1 << (64 - len)`, `code >> (64 - lackBits)`, `code << lackBits`) are computed as repeated one-bit shifts. The value is the same; the form keeps the proofs cheap.
- Huffman.HuffmanTree.MergeTwo: the two `qremove` calls are arguments of one call, so C++ leaves open which one runs first. The model fixes the first removed (the lighter) as the left child. The proved properties do not depend on this choice.
- The priority queue of `FindMostInfluentialSet` is modelled by its contents: a pop takes any entry of maximal key, not the particular one `std::priority_queue` would pick.
- FindMostInfluential.FindMostInfluentialSet: returns the covered count instead of the fraction `f` (a double). The requires that `k <= n` or that no set is empty rules out popping an empty queue, which the source does not guard.
- HuffmanFind.HuffmanFind: returns the covered count instead of the fraction `f`. It requires at least one occurrence in the sets, because with none `qq[1]` is null and `build_code` would dereference it. It also requires fewer than 2^64 entries over all sets, the range of the `size_t` counters `total_rrr_size` and `freq`. The tree's root then weighs less than 2^64, and because the merge loop always joins the two lightest roots, the tree is less than 128 deep (TreeDepth.ShallowRoot), so the `unsigned char` `cout` never wraps.
- HuffmanFind.HuffmanFind: the greedy property of the seeds is proved for duplicate-free (strictly sorted) sets only. With duplicates the counts of `DecompAndFind` count a vertex once per occurrence, not once per set.
- HuffmanFind.HuffmanFind: the tree pointer the first overload receives is ignored, as in the source, which overwrites it.
- HuffmanFind.HuffmanFind2: the source fills `globalcnt` and `deleteflag` after only `reserve`, writing past their size. The model uses vectors of the proper size.
- HuffmanFind.HuffmanFind2: when a tree is given (`create_flag != 1`), the first seed is that tree's `maxvtx`, and it is not proved greedy. Only the later seeds are.
- HuffmanFind.HuffmanFind2: the round of `DecompAndFind2` is modelled by HuffmanFind.DecompAndFind. The two differ only in the container types of their arguments.
- EncodeSets.EncodeRR22: the `idx` and `flag_print` parameters only guard debug output and are left out. `lossyFlag` is modelled.
- Huffman.HuffmanTree.InitByRRRSets: the vertex ids must be below `stateNum` and at least one vertex must occur. The source indexes `code` and `cout` (of `stateNum` entries) by vertex, and it dereferences `qq[1]` in `build_code`.
