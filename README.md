# Merkle tree with authenticated reads, in Dafny

This project models `merkelTree.py`: a binary hash (Merkle) tree kept in one
flat list, and a client that checks the proof chains the tree returns.

- **Layout.** The tree rounds the requested block count up to a power of two
  `k`, appends `k` empty leaves, then prepends the inner nodes level by level.
  The result is a heap: node `i` has children `2i+1` and `2i+2`, the leaves fill
  the last `k` slots, and block `b` sits at slot `2k-2-b`.
- **Hashes.** Every node caches a hash. A recursive recompute refreshes all of
  them: a leaf hashes its data, an inner node hashes the concatenation of its
  children's hashes. Construction and every write end with a full recompute.
- **Reads.** A read returns a block's data together with a proof chain. The
  chain has one `(level, left, right)` record per step from the leaf up to the
  root, keeping the children in left-then-right order. The last record holds
  the root hash and an empty right field.
- **Client check.** The client walks the chain with a rolling hash. Every
  record except the first (the leaf's record, at level `levels`, the data level)
  must contain the hash combined from the record before it. No hash in the
  chain is ever compared with the root's hash.

The two hash functions are parameters of the model, and nothing is assumed
about them:
- `H` hashes a string, namely two concatenated child hashes.
- `HData` hashes a leaf's data.

Files:
- `heap.dfy` (module `HeapIndex`): powers of two, parent and depth arithmetic,
  and the subtree relation of a heap-ordered array.
- `spec.dfy` (module `MerkleSpec`):
  - the node and record datatypes, and the heap shape;
  - what a fresh hash is, and the block-to-slot map;
  - a layout-independent reference Merkle root;
  - what a proof chain is and what the client accepts;
  - lemmas connecting these.
- `tree.dfy` (module `MerkleTree`): the imperative model.
  - the construction loops;
  - the `Tree` class: constructor, recompute, leaf write, traversal, read,
    write;
  - the check loop;
  - the `Client` class.

Python's node objects refer to their children by reference. The list is only
ever prepended to, so an element keeps its distance from the end of the list.
The model therefore stores, in each inner node, the indices its children have
in the finished list. The left child `tree[-(i+2)]` gets index `size-(i+2)` and
the right child `tree[-(i+1)]` gets index `size-(i+1)`, with `size = 2k-1`.

## Model

| member | source | states |
|---|---|---|
| HeapIndex.CeilLog2 | merkelTree.py:47 | the rounded-up leaf count `2^e` holds `n` blocks, and `2^(e-1)` does not |
| HeapIndex.LeafCountIsLeast | merkelTree.py:47 | no smaller power of two holds `n` blocks |
| HeapIndex.Parent | merkelTree.py:83-88 | an odd index is its parent's left child `2p+1`; an even one is its parent's right child `2p+2` |
| HeapIndex.DepthBounds | merkelTree.py:76-91 | the number of parent steps from slot `n` to the root, which the traversal's level counter counts down, is the floor of `log2(n+1)` |
| HeapIndex.AncestorStep | merkelTree.py:77-91 | walking up `r` steps lowers the depth by `r`, each step takes the parent, and the walk ends at the root |
| HeapIndex.DescSplit | merkelTree.py:16-24 | the subtree of `i` is `i` plus the subtrees of its two children |
| HeapIndex.DescDisjoint | merkelTree.py:20-21 | the two child subtrees share no slot, so recomputing one leaves the other alone |
| HeapIndex.RootCoversAll | merkelTree.py:67 | every slot lies below the root, so a recompute from the root reaches all of them |
| MerkleSpec.LeafSlotIsLeaf | merkelTree.py:98-100 | block `b` is the leaf at slot `2k-2-b`, and distinct blocks use distinct slots |
| MerkleSpec.LeafWriteBlocks | merkelTree.py:34-35 | overwriting one leaf's data keeps the heap and changes that block alone |
| MerkleSpec.SameShapeBlocks | merkelTree.py:16-24 | changing cached hashes only keeps the heap and every block's data |
| MerkleSpec.LeafRowReversesBlocks | merkelTree.py:98-100 | the leaves in list order are the blocks in reverse order |
| MerkleSpec.SubtreeHashIsMerkleRoot | merkelTree.py:16-24 | with fresh hashes, a node at height `e` holds the reference Merkle root of the `2^e` leaves below it |
| MerkleSpec.FreshRootIsMerkleRoot | merkelTree.py:16-24 | with fresh hashes, the root hash is the reference Merkle root of all leaf data |
| MerkleSpec.PathChainSides | merkelTree.py:83-88 | in a chain, the node on the path is the left field when its index is odd and the right field when it is even |
| MerkleSpec.PathChainUnique | merkelTree.py:71-91 | the chain is determined by the list and the start slot, so two reads with no write between return the same chain |
| MerkleSpec.LeafChainLevels | merkelTree.py:71-91 | a leaf's chain has `levels+1` records with levels `levels` down to 0, and ends with `(0, root hash, "")` |
| MerkleSpec.HonestChainAccepted | merkelTree.py:125-132 | completeness: the chain of any slot passes the client's check whenever the inner nodes' hashes are fresh; leaf hashes may be stale |
| MerkleSpec.TamperedChainAccepted | merkelTree.py:34-35 | overwriting a leaf's data without recomputing any hash changes that block, yet every chain of the resulting list still passes the client's check |
| MerkleTree.BuildLayout | merkelTree.py:43-62 | the append and prepend loops build a heap of `2k-1` nodes: inner node `j` pairs `2j+1` and `2j+2`, the last `k` are empty leaves with fresh hashes, and the node count matches |
| MerkleTree.PrependKeepsPrefix | merkelTree.py:58-59 | prepending the node built from the elements `i+2` and `i+1` places from the end keeps the inner prefix in heap order |
| MerkleTree.Tree.constructor | merkelTree.py:42-67 | a valid tree whose leaf count is the least power of two holding `numLeaves`, with `levels = log2` of it, `2k-1` nodes, all blocks empty, and a root hash equal to the Merkle root |
| MerkleTree.Tree.Recompute | merkelTree.py:16-24 | refreshes every hash in the subtree of `i`, touches no slot outside it, changes nothing but hashes, and returns the new hash of `i` |
| MerkleTree.Tree.WriteLeaf | merkelTree.py:34-35 | replaces the leaf's data and keeps its stale hash |
| MerkleTree.Tree.Traversal | merkelTree.py:71-91 | on any heap, fresh hashes or not, returns exactly the proof chain of the start slot |
| MerkleTree.Tree.Read | merkelTree.py:93-103 | on any heap, fresh hashes or not, returns block `b`'s data and its leaf's chain: `levels+1` records, levels counting down to 0, ending with `(0, root hash, "")`; nothing changes |
| MerkleTree.Tree.Write | merkelTree.py:105-110 | from any heap, even one with stale hashes, the tree is valid afterwards, only block `b` holds new data, and the root hash is the Merkle root of the new blocks |
| MerkleTree.VerifyChain | merkelTree.py:125-132 | accepts exactly when no record is flagged: every record above the data level contains the hash combined from the record before it |
| MerkleTree.Client.constructor | merkelTree.py:115-116 | the client wraps the given tree |
| MerkleTree.Client.Read | merkelTree.py:119-132 | returns the block's data and the verdict, both of which the source only logs; the verdict is exactly the client's rule applied to the block's chain, and it is "valid" whenever the inner hashes are fresh |
| MerkleTree.Client.Write | merkelTree.py:140-142 | forwards to the tree: from any heap the tree ends valid and only block `b` changes |

`Leaf.__init__` (merkelTree.py:30-32) creates a leaf and computes its hash at
once. In the model this happens inside `BuildLayout`, whose leaves are
`Leaf(None, HData(None))`.

## Left out

- Logging: the log configuration and every log call are I/O. `Client.Read`
  returns the data and the verdict, which the source only logs and never
  returns.
- `demo` and the `__main__` block: they are driver code, use random numbers and
  read the command line.
- Concrete hashing: `str(abs(hash(...)))` is Python's per-process salted hash.
  Both hash functions are parameters, so every result holds for any hash.
- Floating point: the leaf count and `levels` come from `math.log`, `math.pow`
  and `math.ceil` in the source. The model computes them exactly as the
  smallest power of two and its exponent, so float rounding for huge counts is
  not modelled. The same goes for the float divisions
  `int((n-1)/2)`, `int((n-2)/2)` and `int(nodes_this_level/2)`, which the
  model computes as exact integer halving.
- Out-of-range block ids: `read` and `write` require `blockId < k`. In the
  source, an id from `k` to `2k-2` reaches an inner node through negative
  indexing, and `read` and `write` fail there because an inner node has no
  `data` and no `write`. With an id of `2k-1` or more, `write` raises
  `IndexError` at merkelTree.py:109, and `read` fails in the traversal, either
  on a leaf's missing `left`/`right` (merkelTree.py:85, 88) or with
  `IndexError`. The driver's `randint(0, k)` (merkelTree.py:158) can pick `k`.
- Negative block ids: the model's ids are `nat`, so it leaves them out. In the
  source, `write(-m, x)` with `k <= m <= 2k-1` indexes `tree[m-1]`, which is a
  leaf, and silently overwrites block `2k-1-m`: for example
  `Tree(4).write(-4, x)` writes block 3. `read(-m)` hands slot `2k-2+m` to
  the traversal. For odd `m`, and for even `m >= 2k+2`, it raises `IndexError`
  (merkelTree.py:85, 88). For even `m` from 2 to `2k`, the parent slot is a
  leaf, and `.left` raises `AttributeError` at merkelTree.py:88: for example
  `Tree(4).read(-2)` traverses from slot 8, whose parent 3 is a leaf.
- Fractional leaf counts: the driver passes `float(leaves)`, and the source
  accepts any positive number. A count above 0.5 and below 1 builds a one-leaf
  tree. A count above 0 and at most 0.5 rounds to 0 leaves, and the constructor
  then fails with `ValueError` on `math.log(0, 2)` at merkelTree.py:65. A count
  of 0 or less fails with `ValueError` earlier, at merkelTree.py:47. The
  model's constructor takes a whole `numLeaves >= 1`.
- Inner-node hash before the first recompute: the source starts with `None`.
  The model starts with `""`. The constructor recomputes every hash before
  anything reads it.
- Object identity: child references are indices into the finished list, and
  the `root` attribute is always slot 0. Aliasing between node objects is
  therefore not modelled.
- `Tree.write`'s return value `0` (merkelTree.py:112) and the unused local
  `total_nodes` in the constructor (merkelTree.py:54) carry no information.
  Neither is modelled.
- The client check as written does not compare the returned data with the
  leaf hash. It also does not compare the last hash with a trusted root. The
  model keeps both weaknesses. `MerkleSpec.ChainAccepted` states the rule
  exactly as the loop applies it, and `MerkleSpec.TamperedChainAccepted` shows
  that a changed block with a stale leaf hash still passes. No hash in the
  chain is ever compared with `root.hash`.
- Concurrency: the tree is single-threaded and callers serialise access, so
  no interleaving is modelled.
