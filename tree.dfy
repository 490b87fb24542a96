/** The tree object of merkelTree.py, its construction, hash maintenance,
    authenticated read and write, and the client that checks proof chains.
    Python's node objects live in one list that `Tree` owns; a node refers to
    its children by their index in the finished list. */
module MerkleTree {
  import opened HeapIndex
  import opened MerkleSpec

  /** The two loops of the tree constructor: append `k` fresh empty leaves,
      then prepend the inner nodes level by level, the node built at step
      `i` pairing the elements `i + 2` and `i + 1` places from the end. Those
      elements never move relative to the end of the list, so their final
      indices are `size - (i + 2)` and `size - (i + 1)` with `size = 2k - 1`.
      Returns the list and the running node count. */
  method BuildLayout<D>(k: nat, ghost L: nat, HData: Option<D> -> string) returns (tree: seq<Node<D>>, total: nat)
    requires k == Pow2(L)
    ensures HeapShaped(tree, k)
    ensures total == |tree|
    ensures forall j :: k - 1 <= j < |tree| ==> tree[j] == Leaf(None, HData(None))
    ensures forall j :: 0 <= j < k - 1 ==> tree[j].hash == ""
  {
    var size := 2 * k - 1;
    tree := [];
    total := 0;
    for x := 0 to k
      invariant |tree| == x && total == x
      invariant forall j :: 0 <= j < |tree| ==> tree[j] == Leaf(None, HData(None))
    {
      tree := tree + [Leaf(None, HData(None))];
      total := total + 1;
    }

    var start := 0;
    var perLevel := k;
    ghost var e: nat := L;
    while perLevel > 1
      invariant perLevel == Pow2(e) && e <= L
      invariant start == 2 * (k - perLevel)
      invariant |tree| == 2 * k - perLevel && total == |tree|
      invariant InnerPrefix(tree, k, size, HData)
      decreases perLevel
    {
      Pow2Monotone(e, L);
      assert e > 0;
      ghost var half := Pow2(e - 1);
      assert perLevel == 2 * half;
      var i := start;
      ghost var c := 0;
      while i < start + perLevel
        invariant i == start + 2 * c && c <= half
        invariant i == 2 * (|tree| - k) && total == |tree|
        invariant InnerPrefix(tree, k, size, HData)
        decreases start + perLevel - i
      {
        assert i + 2 <= |tree|;
        var node := Inner(size - (i + 2), size - (i + 1), "");
        PrependKeepsPrefix(tree, k, size, HData, node);
        tree := [node] + tree;
        total := total + 1;
        i := i + 2;
        c := c + 1;
      }
      start := start + perLevel;
      perLevel := perLevel / 2;
      assert perLevel == half;
      e := e - 1;
    }
  }

  /** The list after some prepends: a prefix of inner nodes whose child
      indices are those of their final positions `j + (size - |tree|)` in
      heap order, followed by the `k` empty leaves. */
  ghost predicate InnerPrefix<D>(tree: seq<Node<D>>, k: nat, size: nat, HData: Option<D> -> string)
  {
    && size == 2 * k - 1
    && k <= |tree| <= size
    && (forall j :: 0 <= j < |tree| - k ==>
          tree[j] == Inner(2 * (j + size - |tree|) + 1, 2 * (j + size - |tree|) + 2, ""))
    && (forall j :: |tree| - k <= j < |tree| ==> tree[j] == Leaf(None, HData(None)))
  }

  /** Prepending the next inner node, built from the elements `i + 2` and
      `i + 1` places from the end, keeps the prefix in heap order. */
  lemma PrependKeepsPrefix<D>(tree: seq<Node<D>>, k: nat, size: nat, HData: Option<D> -> string, node: Node<D>)
    requires InnerPrefix(tree, k, size, HData) && |tree| < size
    requires node == Inner(size - (2 * (|tree| - k) + 2), size - (2 * (|tree| - k) + 1), "")
    ensures InnerPrefix([node] + tree, k, size, HData)
  {
    var t := [node] + tree;
    forall j | 0 <= j < |t| - k
      ensures t[j] == Inner(2 * (j + size - |t|) + 1, 2 * (j + size - |t|) + 2, "")
    {
      if j > 0 {
        assert t[j] == tree[j - 1];
      }
    }
    forall j | |t| - k <= j < |t|
      ensures t[j] == Leaf(None, HData(None))
    {
      assert t[j] == tree[j - 1];
    }
  }

  /** Every node of the subtree of `i` has a fresh cached hash. */
  ghost predicate SubtreeFresh<D>(s: seq<Node<D>>, i: nat, H: string -> string, HData: Option<D> -> string)
  {
    forall j :: 0 <= j < |s| && Desc(i, j) ==> NodeFresh(s, j, H, HData)
  }

  /** A fresh subtree at the root is a fresh tree. */
  lemma RootFreshIsAllFresh<D>(s: seq<Node<D>>, H: string -> string, HData: Option<D> -> string)
    requires SubtreeFresh(s, 0, H, HData)
    ensures HashesFresh(s, H, HData)
  {
    forall j | 0 <= j < |s|
      ensures NodeFresh(s, j, H, HData)
    {
      RootCoversAll(j);
    }
  }

  /** Freshness of a subtree depends only on the slots of that subtree. */
  lemma SubtreeFreshFrame<D>(s: seq<Node<D>>, t: seq<Node<D>>, k: nat, c: nat, H: string -> string, HData: Option<D> -> string)
    requires HeapShaped(s, k) && |t| == |s| && SubtreeFresh(s, c, H, HData)
    requires forall j :: 0 <= j < |s| && Desc(c, j) ==> t[j] == s[j]
    ensures SubtreeFresh(t, c, H, HData)
  {
    forall j | 0 <= j < |t| && Desc(c, j)
      ensures NodeFresh(t, j, H, HData)
    {
      assert t[j] == s[j] && NodeFresh(s, j, H, HData);
      if j < k - 1 {
        DescChildren(c, j);
        assert t[2 * j + 1] == s[2 * j + 1] && t[2 * j + 2] == s[2 * j + 2];
      }
    }
  }

  /** The leaf case of the recursive recompute: storing the hash of a
      leaf's data at its slot `i` makes the one-slot subtree of `i` fresh and
      changes nothing else. */
  lemma LeafRecomputeStep<D>(s0: seq<Node<D>>, s1: seq<Node<D>>, k: nat, i: nat, H: string -> string, HData: Option<D> -> string)
    requires HeapShaped(s0, k) && i < |s0| && s0[i].Leaf?
    requires s1 == s0[i := Leaf(s0[i].data, HData(s0[i].data))]
    ensures SameShape(s0, s1)
    ensures forall j :: 0 <= j < |s1| && !Desc(i, j) ==> s1[j] == s0[j]
    ensures SubtreeFresh(s1, i, H, HData)
  {
    assert SameSlot(s0[i], s1[i]);
    assert k - 1 <= i;
    forall j | 0 <= j < |s1| && Desc(i, j)
      ensures NodeFresh(s1, j, H, HData)
    {
      DescBelow(i, j);
    }
  }

  /** One inner step of the recursive recompute, from the list `s0` before
      it: the left subtree refreshed gives `s1`, the right one gives `s2`,
      and storing the hash of the two returned child hashes at `i` gives
      `s3`. Then the whole subtree of `i` is fresh, nothing outside it has
      changed, and only hashes have. */
  lemma InnerRecomputeStep<D>(
    s0: seq<Node<D>>, s1: seq<Node<D>>, s2: seq<Node<D>>, s3: seq<Node<D>>, k: nat,
    i: nat, l: nat, r: nat, lh: string, rh: string, H: string -> string, HData: Option<D> -> string)
    requires HeapShaped(s0, k) && i < |s0| && s0[i] == Inner(l, r, s0[i].hash)
    requires SameShape(s0, s1) && SameShape(s1, s2)
    requires forall j :: 0 <= j < |s1| && !Desc(l, j) ==> s1[j] == s0[j]
    requires forall j :: 0 <= j < |s2| && !Desc(r, j) ==> s2[j] == s1[j]
    requires SubtreeFresh(s1, l, H, HData) && lh == s1[l].hash
    requires SubtreeFresh(s2, r, H, HData) && rh == s2[r].hash
    requires |s3| == |s2| && s3[i] == Inner(l, r, H(lh + rh))
    requires forall j :: 0 <= j < |s3| && j != i ==> s3[j] == s2[j]
    ensures SameShape(s0, s3)
    ensures forall j :: 0 <= j < |s3| && !Desc(i, j) ==> s3[j] == s0[j]
    ensures SubtreeFresh(s3, i, H, HData)
  {
    assert l == 2 * i + 1 && r == 2 * i + 2;
    InnerStepShape(s0, s1, s2, s3, i);
    InnerStepFresh(s0, s1, s2, s3, k, i, lh, rh, H, HData);
    OutsideUnchanged(s0, s1, s2, s3, i);
  }

  /** The inner step changes hashes only. */
  lemma InnerStepShape<D>(s0: seq<Node<D>>, s1: seq<Node<D>>, s2: seq<Node<D>>, s3: seq<Node<D>>, i: nat)
    requires SameShape(s0, s1) && SameShape(s1, s2) && i < |s2| && |s3| == |s2|
    requires SameSlot(s2[i], s3[i])
    requires forall j :: 0 <= j < |s3| && j != i ==> s3[j] == s2[j]
    ensures SameShape(s0, s3)
  {
    SameShapeTrans(s0, s1, s2);
    forall j | 0 <= j < |s3|
      ensures SameSlot(s2[j], s3[j])
    {
    }
    SameShapeTrans(s0, s2, s3);
  }

  /** After the inner step the whole subtree of `i` is fresh. */
  lemma InnerStepFresh<D>(
    s0: seq<Node<D>>, s1: seq<Node<D>>, s2: seq<Node<D>>, s3: seq<Node<D>>, k: nat,
    i: nat, lh: string, rh: string, H: string -> string, HData: Option<D> -> string)
    requires HeapShaped(s0, k) && i < k - 1
    requires SameShape(s0, s1) && SameShape(s1, s2)
    requires forall j :: 0 <= j < |s2| && !Desc(2 * i + 2, j) ==> s2[j] == s1[j]
    requires SubtreeFresh(s1, 2 * i + 1, H, HData) && lh == s1[2 * i + 1].hash
    requires SubtreeFresh(s2, 2 * i + 2, H, HData) && rh == s2[2 * i + 2].hash
    requires |s3| == |s2| && s3[i] == Inner(2 * i + 1, 2 * i + 2, H(lh + rh))
    requires forall j :: 0 <= j < |s3| && j != i ==> s3[j] == s2[j]
    ensures SubtreeFresh(s3, i, H, HData)
  {
    var l, r := 2 * i + 1, 2 * i + 2;
    SameShapeKeepsHeap(s0, s1, k);
    ChildSubtreesStayFresh(s1, s2, s3, k, i, H, HData);
    assert !Desc(r, l) by {
      DescDisjoint(i, l);
    }
    assert s3[l] == s2[l] == s1[l];
    assert NodeFresh(s3, i, H, HData);
    SubtreeJoin(s3, i, H, HData);
  }

  /** During an inner step, the left subtree refreshed first stays fresh
      while the right one is refreshed and the parent's hash is stored, and
      the right one stays fresh when the parent's hash is stored. */
  lemma ChildSubtreesStayFresh<D>(
    s1: seq<Node<D>>, s2: seq<Node<D>>, s3: seq<Node<D>>, k: nat, i: nat,
    H: string -> string, HData: Option<D> -> string)
    requires HeapShaped(s1, k) && i < k - 1 && SameShape(s1, s2) && |s3| == |s1|
    requires forall j :: 0 <= j < |s2| && !Desc(2 * i + 2, j) ==> s2[j] == s1[j]
    requires forall j :: 0 <= j < |s3| && j != i ==> s3[j] == s2[j]
    requires SubtreeFresh(s1, 2 * i + 1, H, HData)
    requires SubtreeFresh(s2, 2 * i + 2, H, HData)
    ensures SubtreeFresh(s3, 2 * i + 1, H, HData)
    ensures SubtreeFresh(s3, 2 * i + 2, H, HData)
  {
    var l, r := 2 * i + 1, 2 * i + 2;
    forall j | 0 <= j < |s1| && Desc(l, j)
      ensures s3[j] == s1[j]
    {
      DescDisjoint(i, j);
      DescAbove(l, j);
    }
    SubtreeFreshFrame(s1, s3, k, l, H, HData);
    forall j | 0 <= j < |s1| && Desc(r, j)
      ensures s3[j] == s2[j]
    {
      DescAbove(r, j);
    }
    SameShapeKeepsHeap(s1, s2, k);
    SubtreeFreshFrame(s2, s3, k, r, H, HData);
  }

  /** A node whose own hash is fresh and whose two child subtrees are fresh
      heads a fresh subtree. */
  lemma SubtreeJoin<D>(s: seq<Node<D>>, i: nat, H: string -> string, HData: Option<D> -> string)
    requires i < |s| && NodeFresh(s, i, H, HData)
    requires SubtreeFresh(s, 2 * i + 1, H, HData) && SubtreeFresh(s, 2 * i + 2, H, HData)
    ensures SubtreeFresh(s, i, H, HData)
  {
    forall j | 0 <= j < |s| && Desc(i, j)
      ensures NodeFresh(s, j, H, HData)
    {
      DescSplit(i, j);
    }
  }

  /** The inner step changes only slots of the subtree of `i`: the two
      recursive calls stay inside the child subtrees, and the final store is
      at `i` itself. */
  lemma OutsideUnchanged<D>(s0: seq<Node<D>>, s1: seq<Node<D>>, s2: seq<Node<D>>, s3: seq<Node<D>>, i: nat)
    requires |s1| == |s0| && |s2| == |s0| && |s3| == |s0|
    requires forall j :: 0 <= j < |s1| && !Desc(2 * i + 1, j) ==> s1[j] == s0[j]
    requires forall j :: 0 <= j < |s2| && !Desc(2 * i + 2, j) ==> s2[j] == s1[j]
    requires forall j :: 0 <= j < |s3| && j != i ==> s3[j] == s2[j]
    ensures forall j :: 0 <= j < |s3| && !Desc(i, j) ==> s3[j] == s0[j]
  {
    forall j | 0 <= j < |s3| && !Desc(i, j)
      ensures s3[j] == s0[j]
    {
      DescSplit(i, j);
    }
  }

  /** After the first full recompute of the initial layout `s`, giving `t`:
      every hash is fresh, every block is empty, and the root hash is the
      Merkle root of the (empty) blocks. */
  lemma InitialTreeFresh<D>(s: seq<Node<D>>, t: seq<Node<D>>, k: nat, L: nat, H: string -> string, HData: Option<D> -> string)
    requires HeapShaped(s, k) && k == Pow2(L)
    requires forall j :: k - 1 <= j < |s| ==> s[j] == Leaf(None, HData(None))
    requires SameShape(s, t) && SubtreeFresh(t, 0, H, HData)
    ensures HeapShaped(t, k) && HashesFresh(t, H, HData)
    ensures forall b :: 0 <= b < k ==> BlockData(t, k)[b] == None
    ensures t[0].hash == MerkleRoot(H, HData, LeafRow(t, k), 0, L)
  {
    SameShapeBlocks(s, t, k);
    RootFreshIsAllFresh(t, H, HData);
    forall b | 0 <= b < k
      ensures BlockData(t, k)[b] == None
    {
      assert BlockData(s, k)[b] == s[|s| - 1 - b].data;
    }
    FreshRootIsMerkleRoot(t, k, L, H, HData);
  }

  class Tree<D> {
    /** Hash of the concatenated hashes of two children. */
    const H: string -> string
    /** Hash of a leaf's data. */
    const HData: Option<D> -> string
    /** The node list: root at 0, block `b` at `|nodes| - 1 - b`. */
    var nodes: seq<Node<D>>
    var totalNodes: nat
    /** Number of leaves: the requested count rounded up to a power of two. */
    var leafCount: nat
    var levels: nat

    /** The node list is a complete heap with `2^levels` leaves. This is all
        a read needs; the cached hashes may be stale. */
    ghost predicate Shaped()
      reads this
    {
      && leafCount == Pow2(levels)
      && HeapShaped(nodes, leafCount)
      && totalNodes == |nodes|
    }

    /** A shaped tree whose every cached hash is fresh: the state that the
        constructor and every `write` leave. */
    ghost predicate Valid()
      reads this
    {
      Shaped() && HashesFresh(nodes, H, HData)
    }

    /** The data of every block, by block id. */
    ghost function Blocks(): (blocks: seq<Option<D>>)
      reads this
      requires HeapShaped(nodes, leafCount)
    {
      BlockData(nodes, leafCount)
    }

    /** Builds a tree of `numLeaves` empty blocks rounded up to a power of
        two, then computes every hash from the root down. */
    constructor (numLeaves: nat, H: string -> string, HData: Option<D> -> string)
      requires numLeaves >= 1
      ensures Valid() && this.H == H && this.HData == HData
      ensures levels == CeilLog2(numLeaves) && leafCount == Pow2(levels)
      ensures numLeaves <= leafCount && (levels == 0 || leafCount < 2 * numLeaves)
      ensures |nodes| == 2 * leafCount - 1
      ensures forall b :: 0 <= b < leafCount ==> Blocks()[b] == None
      ensures nodes[0].hash == MerkleRoot(H, HData, LeafRow(nodes, leafCount), 0, levels)
    {
      var L := CeilLog2(numLeaves);
      var k := Pow2(L);
      var tree, total := BuildLayout(k, L, HData);
      this.H := H;
      this.HData := HData;
      nodes := tree;
      totalNodes := total;
      leafCount := k;
      levels := L;
      new;
      var _ := Recompute(0);
      InitialTreeFresh(tree, nodes, k, L, H, HData);
    }

    /** `Node.recompute` and `Leaf.recompute`: refreshes the cached hash of
        every node below slot `i` (itself included), children first, and
        returns the new hash of `i`. Slots outside the subtree are not
        touched, and nothing but hashes changes. */
    method Recompute(i: nat) returns (h: string)
      requires HeapShaped(nodes, leafCount) && i < |nodes|
      modifies this`nodes
      ensures SameShape(old(nodes), nodes)
      ensures forall j :: 0 <= j < |nodes| && !Desc(i, j) ==> nodes[j] == old(nodes)[j]
      ensures SubtreeFresh(nodes, i, H, HData)
      ensures h == nodes[i].hash
      decreases |nodes| - i
    {
      ghost var s0 := nodes;
      match nodes[i]
      case Leaf(d, _) =>
        h := HData(d);
        nodes := nodes[i := Leaf(d, h)];
        LeafRecomputeStep(s0, nodes, leafCount, i, H, HData);
      case Inner(l, r, _) =>
        var lh := Recompute(l);
        ghost var s1 := nodes;
        SameShapeKeepsHeap(s0, s1, leafCount);
        var rh := Recompute(r);
        ghost var s2 := nodes;
        h := H(lh + rh);
        nodes := nodes[i := Inner(l, r, h)];
        InnerRecomputeStep(s0, s1, s2, nodes, leafCount, i, l, r, lh, rh, H, HData);
    }

    /** `Leaf.write`: overwrites the data of leaf slot `j`, leaving its cached
        hash stale. */
    method WriteLeaf(j: nat, x: Option<D>)
      requires j < |nodes| && nodes[j].Leaf?
      modifies this`nodes
      ensures nodes == old(nodes)[j := Leaf(x, old(nodes)[j].hash)]
    {
      nodes := nodes[j := Leaf(x, nodes[j].hash)];
    }

    /** `traversal`: walks from slot `start` up to the root and records, at
        each step, the level and the hashes of the current node and its
        sibling in left-then-right order; at the root it records the root's
        hash with an empty partner. */
    method Traversal(start: nat) returns (chain: seq<Record>)
      requires Shaped() && start < |nodes|
      ensures IsPathChain(nodes, start, levels, chain)
    {
      chain := [];
      var n := start;
      var level: int := levels;
      while true
        invariant |chain| <= Depth(start) && n == Ancestor(start, |chain|)
        invariant level == levels - |chain|
        invariant forall r :: 0 <= r < |chain| ==> ChainStep(nodes, start, levels, chain, r)
        decreases n
      {
        AncestorStep(start, |chain|);
        if n == 0 {
          chain := chain + [Record(level, nodes[n].hash, "")];
          ChainPrefixSteps(nodes, start, levels, chain, |chain| - 1);
          return;
        }
        var parent: nat;
        var rec: Record;
        if n % 2 == 1 {
          parent := (n - 1) / 2;
          rec := Record(level, nodes[n].hash, nodes[nodes[parent].right].hash);
        } else {
          parent := (n - 2) / 2;
          rec := Record(level, nodes[nodes[parent].left].hash, nodes[n].hash);
        }
        InnerChildren(nodes, leafCount, parent);
        AncestorNext(start, |chain|, n, parent);
        PathStep(nodes, start, levels, chain, n, parent, rec);
        ChainExtend(nodes, start, levels, chain, rec);
        chain := chain + [rec];
        n := parent;
        level := level - 1;
      }
    }

    /** `read`: the data of block `blockId` and the proof chain of its leaf,
        which has one record per level, from `levels` down to the root at
        level 0. Nothing changes. */
    method Read(blockId: nat) returns (data: Option<D>, chain: seq<Record>)
      requires Shaped() && blockId < leafCount
      ensures data == Blocks()[blockId]
      ensures IsPathChain(nodes, LeafSlot(|nodes|, blockId), levels, chain)
      ensures |chain| == levels + 1
      ensures forall r :: 0 <= r < |chain| ==> chain[r].level == levels - r
      ensures chain[levels] == Record(0, nodes[0].hash, "")
    {
      var n: int := -(blockId + 1);
      var block := |nodes| + n;
      LeafSlotIsLeaf(nodes, leafCount, blockId, blockId);
      chain := Traversal(block);
      data := nodes[block].data;
      LeafChainLevels(nodes, leafCount, levels, blockId, chain);
    }

    /** `write`: stores `newData` in block `blockId` and recomputes every
        hash from the root. Only that block's data changes, the shape is
        kept, and the root hash is again the Merkle root of the blocks. */
    method Write(blockId: nat, newData: Option<D>)
      requires Shaped() && blockId < leafCount
      modifies this`nodes
      ensures Valid()
      ensures Blocks() == old(Blocks())[blockId := newData]
      ensures nodes[0].hash == MerkleRoot(H, HData, LeafRow(nodes, leafCount), 0, levels)
    {
      ghost var s0 := nodes;
      LeafSlotIsLeaf(nodes, leafCount, blockId, blockId);
      var j := |nodes| - (blockId + 1);
      WriteLeaf(j, newData);
      LeafWriteBlocks(s0, leafCount, blockId, newData, nodes);
      ghost var s1 := nodes;
      var _ := Recompute(0);
      SameShapeBlocks(s1, nodes, leafCount);
      RootFreshIsAllFresh(nodes, H, HData);
      FreshRootIsMerkleRoot(nodes, leafCount, levels, H, HData);
    }
  }

  /** The record the traversal appends at a non-root node `n`, the node
      `|chain|` steps above `start`, is the next step of the chain, and the
      walk moves on to the parent of `n`. */
  lemma PathStep<D>(s: seq<Node<D>>, start: nat, levels: int, chain: seq<Record>, n: nat, p: nat, rec: Record)
    requires start < |s| && 0 < n < |s| && p == Parent(n)
    requires 2 * p + 2 < |s| && s[p].Inner? && s[p].left == 2 * p + 1 && s[p].right == 2 * p + 2
    requires |chain| < Depth(start) && Ancestor(start, |chain| + 1) == p
    requires n % 2 == 1 ==> rec == Record(levels - |chain|, s[n].hash, s[s[p].right].hash)
    requires n % 2 == 0 ==> rec == Record(levels - |chain|, s[s[p].left].hash, s[n].hash)
    ensures ChainStep(s, start, levels, chain + [rec], |chain|)
  {
    var r, c := |chain|, chain + [rec];
    if n % 2 == 1 {
      assert n == 2 * p + 1 && s[p].right == 2 * p + 2;
    } else {
      assert n == 2 * p + 2 && s[p].left == 2 * p + 1;
    }
    assert rec == Record(levels - r, s[2 * p + 1].hash, s[2 * p + 2].hash);
    assert r < |c| && c[r] == rec;
    StepOfParts(s, start, levels, c, r, p);
  }

  /** One step up from a non-root node on the walk from `start`. */
  lemma AncestorNext(start: nat, r: nat, n: nat, p: nat)
    requires r <= Depth(start) && n == Ancestor(start, r) && n > 0 && p == Parent(n)
    ensures r < Depth(start) && Ancestor(start, r + 1) == p
  {
    AncestorStep(start, r);
  }

  /** Record `r` is a step of the chain once it holds the two children of
      the node `r + 1` steps above `start`. */
  lemma StepOfParts<D>(s: seq<Node<D>>, start: nat, levels: int, c: seq<Record>, r: nat, p: nat)
    requires r < Depth(start) && r < |c| && Ancestor(start, r + 1) == p && 2 * p + 2 < |s|
    requires c[r] == Record(levels - r, s[2 * p + 1].hash, s[2 * p + 2].hash)
    ensures ChainStep(s, start, levels, c, r)
  {
  }

  /** Appending a record that is the next step keeps the steps recorded
      before it, so the longer chain is a step chain too. */
  lemma ChainExtend<D>(s: seq<Node<D>>, start: nat, levels: int, chain: seq<Record>, rec: Record)
    requires |chain| < Depth(start)
    requires forall r :: 0 <= r < |chain| ==> ChainStep(s, start, levels, chain, r)
    requires ChainStep(s, start, levels, chain + [rec], |chain|)
    ensures forall r :: 0 <= r < |chain| + 1 ==> ChainStep(s, start, levels, chain + [rec], r)
  {
    forall r | 0 <= r < |chain|
      ensures ChainStep(s, start, levels, chain + [rec], r)
    {
      assert ChainStep(s, start, levels, chain, r);
      assert (chain + [rec])[r] == chain[r];
    }
  }

  /** Appending a record keeps the steps recorded before it. */
  lemma ChainPrefixSteps<D>(s: seq<Node<D>>, start: nat, levels: int, chain: seq<Record>, m: nat)
    requires m < |chain| && m <= Depth(start)
    requires forall r :: 0 <= r < m ==> ChainStep(s, start, levels, chain[..m], r)
    ensures forall r :: 0 <= r < m ==> ChainStep(s, start, levels, chain, r)
  {
    forall r | 0 <= r < m
      ensures ChainStep(s, start, levels, chain, r)
    {
      assert ChainStep(s, start, levels, chain[..m], r);
      assert chain[..m][r] == chain[r];
    }
  }

  /** The check loop of `Client.read`: carries the hash combined from the
      previous record and flags every record below level `levels` that
      contains it in neither field. It never stops early; the verdict is the
      absence of a flag. */
  method VerifyChain(chain: seq<Record>, levels: int, H: string -> string) returns (valid: bool)
    ensures valid <==> ChainAccepted(chain, levels, H)
  {
    var hashBelow := "";
    var invalid := false;
    for i := 0 to |chain|
      invariant hashBelow == HashBelow(chain, i, H)
      invariant invalid <==> exists r :: 0 <= r < i && Flagged(chain, r, levels, H)
    {
      var rec := chain[i];
      if rec.level < levels {
        if hashBelow != rec.left && hashBelow != rec.right {
          assert Flagged(chain, i, levels, H);
          invalid := true;
        }
      }
      hashBelow := H(rec.left + rec.right);
    }
    valid := !invalid;
  }

  class Client<D> {
    const t: Tree<D>

    constructor (tree: Tree<D>)
      ensures t == tree
    {
      t := tree;
    }

    /** `Client.read`: reads block `blockId` and checks its proof chain
        with the tree's hash function. The data and the verdict, which the
        source only logs, are returned. The verdict is the client's rule
        applied to the block's chain, and it is `true` whenever the inner
        hashes are fresh, whatever the leaves hold. */
    method Read(blockId: nat) returns (data: Option<D>, valid: bool)
      requires t.Shaped() && blockId < t.leafCount
      ensures data == t.Blocks()[blockId]
      ensures valid <==> forall chain :: IsPathChain(t.nodes, LeafSlot(|t.nodes|, blockId), t.levels, chain) ==> ChainAccepted(chain, t.levels, t.H)
      ensures InnerHashesFresh(t.nodes, t.leafCount, t.H, t.HData) ==> valid
    {
      var chain;
      data, chain := t.Read(blockId);
      valid := VerifyChain(chain, t.levels, t.H);
      var start := LeafSlot(|t.nodes|, blockId);
      forall c | IsPathChain(t.nodes, start, t.levels, c)
        ensures c == chain
      {
        PathChainUnique(t.nodes, start, t.levels, c, chain);
      }
      if InnerHashesFresh(t.nodes, t.leafCount, t.H, t.HData) {
        HonestChainAccepted(t.nodes, t.leafCount, start, t.levels, chain, t.H, t.HData);
      }
    }

    /** `Client.write`: forwards to the tree. */
    method Write(blockId: nat, newData: Option<D>)
      requires t.Shaped() && blockId < t.leafCount
      modifies t`nodes
      ensures t.Valid()
      ensures t.Blocks() == old(t.Blocks())[blockId := newData]
    {
      t.Write(blockId, newData);
    }
  }
}
