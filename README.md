# huffman-rs encoder, modelled in Dafny

huffman-rs builds a Huffman coding tree for a byte string (`src/encoder.rs`).
`make_huffman_tree` runs three stages:

1. `byte_frequenies` seeds a count table and counts the input bytes.
2. `frequencies_to_trees` turns each table entry into a weighted leaf.
3. `reduce_huffman_tree` puts the leaves in a `BinaryHeap` whose ordering is
   weight reversed, so the heap pops the lightest tree first. While
   more than one tree is left, it pops two trees and pushes their merge.

`make_encoding_table` walks a finished tree depth first. Going left appends
`0` to the path, going right appends `1`, and at each leaf it inserts
byte → path into a mutable table.

The modules follow those stages:

- `HuffmanTree` (huffman_tree.dfy): the tree types, the reversed weight
  ordering, and the measures of trees and forests: weight, leaves, leaf bytes.
- `Frequencies` (frequencies.dfy): the counting loop, as an imperative method
  over a `map`, and the leaf forest, as a function.
- `BinaryHeapModel` (binary_heap.dfy): the heap, as a class whose field is
  the sequence of trees it holds. `Pop` returns a greatest element under the
  ordering; which one it returns among equals is left open.
- `Reduce` (reduce.dfy): the merge loop, as a method on a heap object. A
  ghost trace records the queue before each pass and the pair each pass
  merged.
- `EncodingTable` (encoding_table.dfy): the recursive walk over a mutable
  table object, and the reference function `Codes` that gives each byte its
  root-to-leaf path.
- `Pipeline` (pipeline.dfy): `make_huffman_tree`, and what the whole chain
  guarantees.

The count table is seeded with `range(0, 255u8)`. That range is half open, so
it covers 0 to 254 only. Byte 255 never gets an entry, and its occurrences are
skipped. The model keeps this behaviour as written. The proved results state
it outright:

- the table's keys are exactly 0..254;
- the tree has exactly 255 leaves, one for each byte 0..254;
- the root weighs the input length minus the number of 255s.

On an empty input the forest still holds 255 leaves of weight 0, so the loop
never sees an empty heap. The resulting code table is total on 0..254 and
prefix free, as `Pipeline.BuiltTreeCodes` states.

## Model

| member | source | states |
|---|---|---|
| HuffmanTree.Cmp | src/encoder.rs:34-38 | a tree compares Greater exactly when it is strictly lighter, Less exactly when it is strictly heavier, and Equal exactly when the weights are equal (shape is ignored, as in `PartialEq` at 22-26) |
| HuffmanTree.RootWeightIsLeafSum | src/encoder.rs:84-89 | in a tree whose every internal weight is the sum of its children's, the root weighs as much as all leaves together |
| HuffmanTree.MergeKeepsLeaves | src/encoder.rs:84-90 | the pushed tree keeps well-formedness, and its leaves and leaf bytes are those of the two popped trees together |
| HuffmanTree.ForestPermutation | src/encoder.rs:79 | a forest's total weight, leaves and leaf bytes depend only on which trees it holds, not on the order the heap keeps them in |
| HuffmanTree.ForestRemoveAt | src/encoder.rs:81-82 | taking one tree out of a forest takes exactly its share of each measure and one copy of it out of the multiset |
| Frequencies.ByteFrequencies | src/encoder.rs:53-67 | the table's keys are exactly 0..254 (byte 255 never has an entry), and each key's count is the number of its occurrences in the input |
| Frequencies.FrequenciesToTrees | src/encoder.rs:69-76 | one leaf per table entry, in iteration order: a tree is in the result exactly when it is a leaf of a key whose weight is that key's count; no entry yields two leaves |
| Frequencies.SeededKeyCount | src/encoder.rs:55-57 | the seeded table has 255 keys, so the forest always has 255 leaves |
| Frequencies.EnumerationLength | src/encoder.rs:70 | an iteration order of the table without repeats is as long as the table |
| Frequencies.CountOverSeeded | src/encoder.rs:59-63 | over the seeded keys the counts add up to the number of input bytes that are not 255 |
| Frequencies.LeafForestWeight | src/encoder.rs:71-74 | a forest of leaves weighted by counts weighs the sum of those counts |
| Frequencies.LeafForestBytes | src/encoder.rs:73 | the leaf bytes of the forest are the listed keys |
| BinaryHeapModel.GreatestIsLightest | src/encoder.rs:36 | under the reversed ordering, a greatest tree of the heap is exactly a lightest one (both directions) |
| BinaryHeapModel.GreatestExists | src/encoder.rs:81-82 | a non-empty heap has a greatest element, so each `pop().unwrap()` inside the loop succeeds |
| BinaryHeapModel.BinaryHeap.Pop | src/encoder.rs:81-82 | an empty heap yields `None`; otherwise `Some` of a greatest tree, and the heap loses exactly one copy of it |
| BinaryHeapModel.BinaryHeap.Push | src/encoder.rs:84 | the heap gains exactly one copy of the pushed tree |
| Reduce.GreedyStepShrinks | src/encoder.rs:80-91 | one pass makes the queue one tree shorter; the first popped tree weighs no more than the second, and both weigh no more than every tree left in the queue |
| Reduce.GreedyRunLength | src/encoder.rs:80-91 | after k passes the queue holds k trees fewer than at the start |
| Reduce.MergeConserves | src/encoder.rs:84-90 | a pass keeps the total weight, the leaves and the leaf bytes of the queue, and keeps every tree well formed |
| Reduce.MergeLightestTwo | src/encoder.rs:81-90 | one loop pass on the heap: pops a lightest tree and then a lightest of the rest, pushes their merge with the first on the left, and keeps the loop invariant while the heap shrinks by one |
| Reduce.ReduceHuffmanTree | src/encoder.rs:78-94 | for a non-empty forest of n trees: exactly n-1 greedy passes, each merging two lightest trees; the result weighs the forest's total weight, has exactly the forest's leaves and leaf bytes, and is well formed when the inputs are |
| EncodingTable.Codes | src/encoder.rs:99-109 | the bytes with a code are exactly the bytes at the leaves; every code is over {0,1}; a single leaf has the empty code; in a tree with children every code is non-empty |
| EncodingTable.CodeLeadsToLeaf | src/encoder.rs:99-109 | following a byte's code from the root (0 left, 1 right) arrives at a leaf of the tree holding that byte |
| EncodingTable.CodeIsThePath | src/encoder.rs:99-109 | conversely, when a byte sits at one leaf, any path from the root to that leaf is its code |
| EncodingTable.CodesArePrefixFree | src/encoder.rs:99-109 | no code of one byte is a prefix of the code of another byte |
| EncodingTable.WalkResult | src/encoder.rs:96-111 | after a walk with a prefix, the table's keys are the old keys plus the tree's bytes; each tree byte maps to the prefix followed by its code; other entries keep their value |
| EncodingTable.WalkLeaf | src/encoder.rs:107-109 | a walk that meets a single leaf inserts the prefix itself for its byte |
| EncodingTable.WalkFromRoot | src/encoder.rs:96-111 | a walk from the empty prefix into an empty table yields exactly the codes |
| EncodingTable.WalkSplits | src/encoder.rs:100-105 | the left walk with prefix + 0 followed by the right walk with prefix + 1 amounts to the walk of the whole node |
| EncodingTable.MakeEncodingTable | src/encoder.rs:96-111 | the table afterwards is the table before overlaid with the tree's codes behind the prefix (consequences in WalkResult, WalkLeaf, WalkFromRoot) |
| EncodingTable.CodeTable.Insert | src/encoder.rs:108 | the entry for the byte is set to the code, all other entries unchanged |
| Pipeline.MakeHuffmanTree | src/encoder.rs:40-51 | for any iteration order of the table: the tree is the result of 254 greedy passes, each merging two lightest trees, starting from one leaf per byte 0..254 weighted by its occurrences; it is well formed and has children; it weighs the input length minus the number of 255s; it holds each byte 0..254 at exactly one leaf and byte 255 at none; its leaves are exactly one leaf per byte 0..254, weighted by that byte's occurrences |
| Pipeline.SeededForestIsSeededLeaves | src/encoder.rs:69-76 | whatever the iteration order, the forest made from the seeded table is, as a multiset, one leaf per byte 0..254 weighted by its occurrences |
| Pipeline.BuiltTree | src/encoder.rs:46-51 | the guarantees of the three stages combine into those of MakeHuffmanTree |
| Pipeline.SeededForestLeaves | src/encoder.rs:69-76 | the leaves made from the seeded table are one per byte 0..254, weighted by its occurrences |
| Pipeline.SeededForestWeight | src/encoder.rs:59-63 | the forest made from the seeded table weighs the input length minus the number of 255s |
| Pipeline.SeededForestBytes | src/encoder.rs:55-57 | the forest made from the seeded table holds every byte 0..254 once and byte 255 never |
| Pipeline.BuiltTreeCodes | src/encoder.rs:96-111 | for a tree the pipeline builds, exactly bytes 0..254 have a code, and the codes are prefix free |
| Pipeline.BuiltTreePaths | src/encoder.rs:96-111 | for a tree the pipeline builds, every root-to-leaf path is the code of that leaf's byte, and that byte is not 255 |

## Left out

- The array layout, sift-up/sift-down and tie-breaking of `BinaryHeap` are not modelled. `Pop` returns some greatest element, chosen nondeterministically, so no particular tree shape follows when weights tie.
- The iteration order of `HashMap` is not modelled. `FrequenciesToTrees` and `MakeHuffmanTree` take it as a parameter `order`, which may be any listing of the keys without repeats.
- `#[deriving(Show)]` formatting (src/encoder.rs:3, 9, 15) is left out, because it is debug output only.
- `format!` and `String` mechanics are left out. Codes are `seq<char>` over `'0'` and `'1'`.
- The machine width of `int` is not modelled. Weights are unbounded naturals, because every weight is bounded by the input length.
- `Box` allocation and ownership are left out. The tree is an inductive datatype.
- Reduce.ReduceHuffmanTree: requires `trees != []`, because `reduce_huffman_tree` on an empty forest panics at its final `unwrap`. The pipeline always meets it, since the forest has 255 leaves.
- BinaryHeapModel.BinaryHeap.FromVec: `BinaryHeap::from_vec` keeps the vector's contents; the heapify step is not modelled, because the layout is abstract.
- BinaryHeapModel.BinaryHeap.Push: states only the multiset of the heap, not the position of the new tree, because the layout of the heap is abstract.
- Optimality of Huffman codes is not modelled: the model does not prove that the code length is minimal.
- The greedy-choice property is proved for each pass, but the expected code lengths of concrete inputs such as `"aaabbc"` are not derived.
- Code length equals leaf depth only in the form that `Descend` consumes one code symbol per edge. No separate depth function is defined.
- `make_encoding_table` is modelled with the table as an object updated in place. Its `String` prefix is passed by value, as in the source.
