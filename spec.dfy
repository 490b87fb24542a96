/** What the flat Merkle tree of merkelTree.py looks like, what its cached
    hashes must be, what a proof chain returned by a read contains, and what
    the client's chain check accepts. The hash functions are parameters:
    `H` combines two concatenated child hashes, `HData` hashes a leaf's data. */
module MerkleSpec {
  import opened HeapIndex

  datatype Option<T> = None | Some(value: T)

  /** One slot of the tree array. An inner node names its two children by
      their index in the (final) array. */
  datatype Node<D> =
    | Leaf(data: Option<D>, hash: string)
    | Inner(left: nat, right: nat, hash: string)

  /** One step of a proof chain: the level and the two child hashes of the
      parent at that step, in left-then-right order. */
  datatype Record = Record(level: int, left: string, right: string)

  /** The array is a complete binary tree with `k` leaves in heap order:
      inner node `j` has children `2j+1` and `2j+2`, and the last `k` slots
      are the leaves. */
  ghost predicate HeapShaped<D>(s: seq<Node<D>>, k: nat)
  {
    && k >= 1
    && |s| == 2 * k - 1
    && (forall j :: 0 <= j < k - 1 ==> s[j].Inner? && s[j].left == 2 * j + 1 && s[j].right == 2 * j + 2)
    && (forall j :: k - 1 <= j < |s| ==> s[j].Leaf?)
  }

  /** The children of inner node `p`, spelled out. */
  lemma InnerChildren<D>(s: seq<Node<D>>, k: nat, p: nat)
    requires HeapShaped(s, k) && p < k - 1
    ensures 2 * p + 2 < |s| && s[p].Inner? && s[p].left == 2 * p + 1 && s[p].right == 2 * p + 2
  {
  }

  /** Slot `y` is slot `x` with at most its cached hash changed. */
  ghost predicate SameSlot<D>(x: Node<D>, y: Node<D>)
  {
    match x
    case Leaf(d, _) => y.Leaf? && y.data == d
    case Inner(l, r, _) => y.Inner? && y.left == l && y.right == r
  }

  /** `t` differs from `s` at most in the cached hashes. */
  ghost predicate SameShape<D>(s: seq<Node<D>>, t: seq<Node<D>>)
  {
    |s| == |t| && forall j :: 0 <= j < |s| ==> SameSlot(s[j], t[j])
  }

  lemma SameShapeKeepsHeap<D>(s: seq<Node<D>>, t: seq<Node<D>>, k: nat)
    requires HeapShaped(s, k) && SameShape(s, t)
    ensures HeapShaped(t, k)
  {
    forall j | 0 <= j < |s|
      ensures t[j].Leaf? == s[j].Leaf?
    {
      assert SameSlot(s[j], t[j]);
    }
  }

  lemma SameShapeTrans<D>(s: seq<Node<D>>, t: seq<Node<D>>, u: seq<Node<D>>)
    requires SameShape(s, t) && SameShape(t, u)
    ensures SameShape(s, u)
  {
    forall j | 0 <= j < |s|
      ensures SameSlot(s[j], u[j])
    {
      assert SameSlot(s[j], t[j]) && SameSlot(t[j], u[j]);
    }
  }

  /** The cached hash of slot `j` is up to date with respect to its data or
      its children's cached hashes. */
  ghost predicate NodeFresh<D>(s: seq<Node<D>>, j: nat, H: string -> string, HData: Option<D> -> string)
    requires j < |s|
  {
    match s[j]
    case Leaf(d, h) => h == HData(d)
    case Inner(l, r, h) => l < |s| && r < |s| && h == H(s[l].hash + s[r].hash)
  }

  /** Every cached hash is up to date: the state a full recompute leaves. */
  ghost predicate HashesFresh<D>(s: seq<Node<D>>, H: string -> string, HData: Option<D> -> string)
  {
    forall j :: 0 <= j < |s| ==> NodeFresh(s, j, H, HData)
  }

  /** Every inner node's cached hash is up to date with its children's
      cached hashes; leaf hashes may be stale with respect to their data, as
      after a `Leaf.write` that no recompute has followed. */
  ghost predicate InnerHashesFresh<D>(s: seq<Node<D>>, k: nat, H: string -> string, HData: Option<D> -> string)
  {
    forall j :: 0 <= j < k - 1 && j < |s| ==> NodeFresh(s, j, H, HData)
  }

  /** Array slot of block `blockId` in an array of `size` slots: block 0 is
      the last slot. */
  function LeafSlot(size: nat, blockId: nat): (j: nat)
    requires blockId < size
    ensures j < size
  {
    size - 1 - blockId
  }

  /** Block `b` of a `k`-leaf heap sits in a leaf slot, and distinct blocks
      sit in distinct slots. */
  lemma LeafSlotIsLeaf<D>(s: seq<Node<D>>, k: nat, b: nat, c: nat)
    requires HeapShaped(s, k) && b < k && c < k
    ensures k - 1 <= LeafSlot(|s|, b) && s[LeafSlot(|s|, b)].Leaf?
    ensures b != c ==> LeafSlot(|s|, b) != LeafSlot(|s|, c)
  {
  }

  /** The data of every block, indexed by block id. */
  ghost function BlockData<D>(s: seq<Node<D>>, k: nat): (blocks: seq<Option<D>>)
    requires HeapShaped(s, k)
  {
    seq(k, b requires 0 <= b < k => s[|s| - 1 - b].data)
  }

  /** The data of the leaves in array order (block `k-1` first, block 0
      last). */
  ghost function LeafRow<D>(s: seq<Node<D>>, k: nat): (row: seq<Option<D>>)
    requires HeapShaped(s, k)
  {
    seq(k, j requires 0 <= j < k => s[k - 1 + j].data)
  }

  /** Overwriting the data of block `b`'s leaf keeps the heap and changes
      block `b` alone. */
  lemma LeafWriteBlocks<D>(s: seq<Node<D>>, k: nat, b: nat, x: Option<D>, t: seq<Node<D>>)
    requires HeapShaped(s, k) && b < k
    requires t == s[LeafSlot(|s|, b) := Leaf(x, s[LeafSlot(|s|, b)].hash)]
    ensures HeapShaped(t, k)
    ensures BlockData(t, k) == BlockData(s, k)[b := x]
  {
    LeafSlotIsLeaf(s, k, b, b);
    forall c | 0 <= c < k
      ensures BlockData(t, k)[c] == BlockData(s, k)[b := x][c]
    {
      LeafSlotIsLeaf(s, k, b, c);
    }
  }

  /** Changing hashes only keeps the heap and every block's data. */
  lemma SameShapeBlocks<D>(s: seq<Node<D>>, t: seq<Node<D>>, k: nat)
    requires HeapShaped(s, k) && SameShape(s, t)
    ensures HeapShaped(t, k)
    ensures BlockData(t, k) == BlockData(s, k)
  {
    SameShapeKeepsHeap(s, t, k);
    forall c | 0 <= c < k
      ensures BlockData(t, k)[c] == BlockData(s, k)[c]
    {
      assert SameSlot(s[|s| - 1 - c], t[|t| - 1 - c]);
    }
  }

  /** The leaf row lists the blocks in reverse. */
  lemma LeafRowReversesBlocks<D>(s: seq<Node<D>>, k: nat, b: nat)
    requires HeapShaped(s, k) && b < k
    ensures |LeafRow(s, k)| == |BlockData(s, k)| == k
    ensures LeafRow(s, k)[k - 1 - b] == BlockData(s, k)[b]
  {
  }

  /** Reference definition of the root hash of a balanced Merkle tree over
      the `2^e` leaves of `row` starting at position `a`, independent of any
      array layout: a single leaf hashes its data, a larger run hashes the
      concatenated roots of its two halves. */
  ghost function MerkleRoot<D>(H: string -> string, HData: Option<D> -> string, row: seq<Option<D>>, a: nat, e: nat): (root: string)
    requires a + Pow2(e) <= |row|
    decreases e
  {
    if e == 0 then HData(row[a])
    else H(MerkleRoot(H, HData, row, a, e - 1) + MerkleRoot(H, HData, row, a + Pow2(e - 1), e - 1))
  }

  lemma MulMonotone(x: nat, y: nat, m: nat)
    requires x <= y
    ensures x * m <= y * m
  {
  }

  /** Moving a factor 2 across a product. */
  lemma MulShift(x: int, y: int)
    ensures (2 * x) * y == x * (2 * y)
    ensures (2 * x + 1) * y == x * (2 * y) + y
  {
  }

  /** The leaves below node `i` at height `e` (depth `L - e`) of a
      `2^L`-leaf heap: there are `2^e` of them and they start at leaf-row
      position `a = (i+1)*2^e - k`, inside the row; a leaf is its own run. */
  lemma SpanBounds(k: nat, L: nat, i: nat, e: nat, a: int)
    requires k == Pow2(L) && e <= L && Pow2(L - e) <= i + 1 < 2 * Pow2(L - e)
    requires a == (i + 1) * Pow2(e) - k
    ensures 0 <= a && a + Pow2(e) <= k && i < 2 * k - 1
    ensures e == 0 ==> a == i - (k - 1)
  {
    Pow2Add(L - e, e);
    RunArith(Pow2(L - e), Pow2(e), k, i, a);
  }

  /** `SpanBounds` with the two powers of two as plain numbers `p * m == k`. */
  lemma RunArith(p: nat, m: nat, k: nat, i: nat, a: int)
    requires p * m == k && m >= 1 && p <= i + 1 < 2 * p
    requires a == (i + 1) * m - k
    ensures 0 <= a && a + m <= k && i < 2 * k - 1
    ensures m == 1 ==> a == i - (k - 1)
  {
    MulMonotone(p, i + 1, m);
    MulMonotone(i + 2, 2 * p, m);
    MulMonotone(1, m, p);
    assert (i + 2) * m == (i + 1) * m + m;
    assert (2 * p) * m == 2 * k;
  }

  /** The run of an inner node splits into the runs of its two children,
      which sit one level lower. */
  lemma SpanChildren(k: nat, L: nat, i: nat, e: nat, a: int)
    requires k == Pow2(L) && 0 < e <= L && Pow2(L - e) <= i + 1 < 2 * Pow2(L - e)
    requires a == (i + 1) * Pow2(e) - k
    ensures i < k - 1 && Pow2(e) == 2 * Pow2(e - 1)
    ensures Pow2(L - (e - 1)) <= 2 * i + 1 + 1 < 2 * Pow2(L - (e - 1))
    ensures Pow2(L - (e - 1)) <= 2 * i + 2 + 1 < 2 * Pow2(L - (e - 1))
    ensures a == (2 * i + 1 + 1) * Pow2(e - 1) - k
    ensures a + Pow2(e - 1) == (2 * i + 2 + 1) * Pow2(e - 1) - k
  {
    Pow2Grows(L - e, L);
    assert Pow2(L - (e - 1)) == 2 * Pow2(L - e);
    MulShift(i + 1, Pow2(e - 1));
  }

  /** Leaf-row position of the leftmost leaf below node `i` at height `e`:
      go down to the left `e` times. */
  ghost function LeftmostLeaf(i: nat, e: nat, k: nat): (a: int)
    decreases e
  {
    if e == 0 then i - (k - 1) else LeftmostLeaf(2 * i + 1, e - 1, k)
  }

  lemma {:induction false} LeftmostLeafClosed(i: nat, e: nat, k: nat)
    ensures LeftmostLeaf(i, e, k) == (i + 1) * Pow2(e) - k
    decreases e
  {
    if e > 0 {
      LeftmostLeafClosed(2 * i + 1, e - 1, k);
      MulShift(i + 1, Pow2(e - 1));
    }
  }

  /** The run of leaves below node `i` at height `e` lies inside the row; a
      node of height 0 is a leaf, and the run of an inner node is the run of
      its left child followed by the run of its right child. */
  lemma Run(k: nat, L: nat, i: nat, e: nat, a: int)
    requires k == Pow2(L) && e <= L && Pow2(L - e) <= i + 1 < 2 * Pow2(L - e)
    requires a == LeftmostLeaf(i, e, k)
    ensures 0 <= a && a + Pow2(e) <= k && i < 2 * k - 1
    ensures e == 0 ==> k - 1 <= i
    ensures e > 0 ==> i < k - 1 && Pow2(e) == 2 * Pow2(e - 1)
    ensures e > 0 ==> Pow2(L - (e - 1)) <= 2 * i + 1 + 1 < 2 * Pow2(L - (e - 1))
    ensures e > 0 ==> Pow2(L - (e - 1)) <= 2 * i + 2 + 1 < 2 * Pow2(L - (e - 1))
    ensures e > 0 ==> a + Pow2(e - 1) == LeftmostLeaf(2 * i + 2, e - 1, k)
  {
    LeftmostLeafClosed(i, e, k);
    SpanBounds(k, L, i, e, a);
    if e > 0 {
      SpanChildren(k, L, i, e, a);
      LeftmostLeafClosed(2 * i + 2, e - 1, k);
    }
  }

  /** Node `j` of a heap of hashes combines the hashes of its children. */
  predicate PairFresh(hs: seq<string>, j: nat, H: string -> string)
    requires 2 * j + 2 < |hs|
  {
    hs[j] == H(hs[2 * j + 1] + hs[2 * j + 2])
  }

  /** Leaf `b` of the row sits at slot `k - 1 + b` of a heap of hashes and
      its hash is that of its data. */
  predicate LeafFresh<D>(hs: seq<string>, row: seq<Option<D>>, k: nat, b: nat, HData: Option<D> -> string)
    requires 1 <= k && b < |row| && k - 1 + b < |hs|
  {
    hs[k - 1 + b] == HData(row[b])
  }

  /** Node `i` at height `e` of a `2^L`-leaf heap with fresh hashes holds
      the Merkle root of the `2^e` leaves below it. Freshness is given here
      as the two equations it amounts to in a heap, over the hashes `hs`
      and the leaf data `row`. */
  lemma {:induction false} SubtreeHashIsMerkleRoot<D>(
    hs: seq<string>, row: seq<Option<D>>, k: nat, L: nat, H: string -> string, HData: Option<D> -> string,
    i: nat, e: nat, a: int)
    requires k == Pow2(L) && |hs| == 2 * k - 1 && |row| == k
    requires forall j :: 0 <= j < k - 1 ==> PairFresh(hs, j, H)
    requires forall b :: 0 <= b < k ==> LeafFresh(hs, row, k, b, HData)
    requires e <= L && Pow2(L - e) <= i + 1 < 2 * Pow2(L - e)
    requires a == LeftmostLeaf(i, e, k)
    ensures 0 <= a && a + Pow2(e) <= k && i < |hs|
    ensures hs[i] == MerkleRoot(H, HData, row, a, e)
    decreases e
  {
    Run(k, L, i, e, a);
    if e == 0 {
      assert LeafFresh(hs, row, k, a, HData);
      LeafCase(hs, row, k, H, HData, i, a, e);
    } else {
      var m: nat := a + Pow2(e - 1);
      SubtreeHashIsMerkleRoot(hs, row, k, L, H, HData, 2 * i + 1, e - 1, a);
      SubtreeHashIsMerkleRoot(hs, row, k, L, H, HData, 2 * i + 2, e - 1, m);
      assert PairFresh(hs, i, H);
      InnerCase(hs, row, H, HData, i, a, m, e);
    }
  }

  /** Base case: a fresh leaf holds the Merkle root of its own run. */
  lemma LeafCase<D>(
    hs: seq<string>, row: seq<Option<D>>, k: nat, H: string -> string, HData: Option<D> -> string,
    i: nat, a: nat, e: nat)
    requires 1 <= k && e == 0 && a < |row| && i == k - 1 + a < |hs| && LeafFresh(hs, row, k, a, HData)
    ensures hs[i] == MerkleRoot(H, HData, row, a, e)
  {
  }

  /** Induction step: an inner node whose hash combines the roots of the two
      halves of its run holds the root of the whole run. */
  lemma InnerCase<D>(
    hs: seq<string>, row: seq<Option<D>>, H: string -> string, HData: Option<D> -> string,
    i: nat, a: nat, m: nat, e: nat)
    requires e > 0 && a + Pow2(e) <= |row| && m == a + Pow2(e - 1)
    requires 2 * i + 2 < |hs| && PairFresh(hs, i, H)
    requires hs[2 * i + 1] == MerkleRoot(H, HData, row, a, e - 1)
    requires hs[2 * i + 2] == MerkleRoot(H, HData, row, m, e - 1)
    ensures hs[i] == MerkleRoot(H, HData, row, a, e)
  {
  }

  /** After a full recompute the root's hash is the Merkle root of all the
      leaves' data: the root authenticates every block. */
  lemma FreshRootIsMerkleRoot<D>(s: seq<Node<D>>, k: nat, L: nat, H: string -> string, HData: Option<D> -> string)
    requires HeapShaped(s, k) && k == Pow2(L) && HashesFresh(s, H, HData)
    ensures s[0].hash == MerkleRoot(H, HData, LeafRow(s, k), 0, L)
  {
    var hs := seq(|s|, j requires 0 <= j < |s| => s[j].hash);
    var row := LeafRow(s, k);
    forall j | 0 <= j < k - 1
      ensures PairFresh(hs, j, H)
    {
      assert NodeFresh(s, j, H, HData);
    }
    forall b | 0 <= b < k
      ensures LeafFresh(hs, row, k, b, HData)
    {
      assert NodeFresh(s, k - 1 + b, H, HData);
    }
    LeftmostLeafClosed(0, L, k);
    SubtreeHashIsMerkleRoot(hs, row, k, L, H, HData, 0, L, 0);
  }

  /** Record `r` of the chain of slot `start` holds, left then right, the
      hashes of the two children of the node `r + 1` steps above `start`. */
  ghost predicate ChainStep<D>(s: seq<Node<D>>, start: nat, levels: int, chain: seq<Record>, r: nat)
    requires r < Depth(start) && r < |chain|
  {
    var p := Ancestor(start, r + 1);
    && 2 * p + 2 < |s|
    && chain[r] == Record(levels - r, s[2 * p + 1].hash, s[2 * p + 2].hash)
  }

  /** `chain` is the proof chain of slot `start`: one record per step from
      `start` up to the root, levels counting down from `levels`. Each
      non-root record holds the two children of the next node up, left then
      right; the last holds the root's hash and an empty right field. */
  ghost predicate IsPathChain<D>(s: seq<Node<D>>, start: nat, levels: int, chain: seq<Record>)
  {
    && start < |s|
    && |chain| == Depth(start) + 1
    && (forall r :: 0 <= r < Depth(start) ==> ChainStep(s, start, levels, chain, r))
    && chain[Depth(start)] == Record(levels - Depth(start), s[0].hash, "")
  }

  /** Record `r` below the root record, spelled out. */
  lemma PathRecord<D>(s: seq<Node<D>>, start: nat, levels: int, chain: seq<Record>, r: nat)
    requires IsPathChain(s, start, levels, chain) && r < Depth(start)
    ensures 2 * Ancestor(start, r + 1) + 2 < |s|
    ensures chain[r] == Record(levels - r, s[2 * Ancestor(start, r + 1) + 1].hash, s[2 * Ancestor(start, r + 1) + 2].hash)
  {
    assert ChainStep(s, start, levels, chain, r);
  }

  /** The node on the path sits in the left field when its index is odd and
      in the right field when it is even. */
  lemma PathChainSides<D>(s: seq<Node<D>>, start: nat, levels: int, chain: seq<Record>, r: nat)
    requires IsPathChain(s, start, levels, chain) && r < Depth(start)
    ensures Ancestor(start, r) < |s|
    ensures Ancestor(start, r) % 2 == 1 ==> chain[r].left == s[Ancestor(start, r)].hash
    ensures Ancestor(start, r) % 2 == 0 ==> chain[r].right == s[Ancestor(start, r)].hash
  {
    PathRecord(s, start, levels, chain, r);
    AncestorStep(start, r);
  }

  /** A proof chain is determined by the tree and the slot: two reads with no
      write in between return the same chain. */
  lemma PathChainUnique<D>(s: seq<Node<D>>, start: nat, levels: int, c1: seq<Record>, c2: seq<Record>)
    requires IsPathChain(s, start, levels, c1) && IsPathChain(s, start, levels, c2)
    ensures c1 == c2
  {
    forall r | 0 <= r < |c1|
      ensures c1[r] == c2[r]
    {
      if r < Depth(start) {
        PathRecord(s, start, levels, c1, r);
        PathRecord(s, start, levels, c2, r);
      }
    }
  }

  /** A leaf of a tree with `2^L` leaves is `L` steps below the root, so its
      chain has `L + 1` records with levels `L, L-1, ..., 0`. */
  lemma LeafChainLevels<D>(s: seq<Node<D>>, k: nat, L: nat, b: nat, chain: seq<Record>)
    requires HeapShaped(s, k) && k == Pow2(L) && b < k
    requires IsPathChain(s, LeafSlot(|s|, b), L, chain)
    ensures Depth(LeafSlot(|s|, b)) == L
    ensures |chain| == L + 1
    ensures forall r :: 0 <= r < |chain| ==> chain[r].level == L - r
    ensures chain[L] == Record(0, s[0].hash, "")
  {
    var n := LeafSlot(|s|, b);
    DepthBounds(n);
    Log2Unique(Depth(n), L, n + 1);
    forall r | 0 <= r < |chain|
      ensures chain[r].level == L - r
    {
      if r < L {
        PathRecord(s, n, L, chain, r);
      }
    }
  }

  /** The rolling hash the client holds when it reaches record `r`: empty
      before the first record, then the combined hash of the record before. */
  function HashBelow(chain: seq<Record>, r: nat, H: string -> string): (h: string)
    requires r <= |chain|
  {
    if r == 0 then "" else H(chain[r - 1].left + chain[r - 1].right)
  }

  predicate Covers(rec: Record, h: string)
  {
    h == rec.left || h == rec.right
  }

  /** The client's acceptance rule: every record below level `levels` must
      contain the hash combined from the record before it. Records at level
      `levels` or above are not checked, the data is not compared with the
      leaf hash, and the last hash is not compared with a trusted root. */
  ghost predicate ChainAccepted(chain: seq<Record>, levels: int, H: string -> string)
  {
    forall r :: 0 <= r < |chain| ==> !Flagged(chain, r, levels, H)
  }

  /** Record `r` is below level `levels` and contains the hash combined
      from the record before it in neither field. */
  predicate Flagged(chain: seq<Record>, r: nat, levels: int, H: string -> string)
    requires r < |chain|
  {
    chain[r].level < levels && !Covers(chain[r], HashBelow(chain, r, H))
  }

  /** Completeness: the chain of any slot of a heap whose inner hashes are
      fresh is accepted. Leaf hashes play no part in the check. */
  lemma {:induction false} HonestChainAccepted<D>(
    s: seq<Node<D>>, k: nat, start: nat, levels: int, chain: seq<Record>,
    H: string -> string, HData: Option<D> -> string)
    requires HeapShaped(s, k) && InnerHashesFresh(s, k, H, HData)
    requires IsPathChain(s, start, levels, chain)
    ensures ChainAccepted(chain, levels, H)
  {
    if Depth(start) > 0 {
      PathRecord(s, start, levels, chain, 0);
    }
    assert chain[0].level == levels;
    forall r | 0 <= r < |chain| && chain[r].level < levels
      ensures !Flagged(chain, r, levels, H)
    {
      var a := Ancestor(start, r);
      PathRecord(s, start, levels, chain, r - 1);
      AncestorStep(start, r);
      assert a < k - 1;
      assert NodeFresh(s, a, H, HData);
      assert HashBelow(chain, r, H) == s[a].hash;
      if r < Depth(start) {
        PathChainSides(s, start, levels, chain, r);
      }
    }
  }

  /** The check does not bind the data to the tree: after a leaf's data is
      overwritten with no recompute, reading that block returns the new data
      and its chain is still accepted, because every inner hash still agrees
      with the unchanged leaf hashes. */
  lemma TamperedChainAccepted<D>(
    s: seq<Node<D>>, k: nat, b: nat, x: Option<D>, t: seq<Node<D>>,
    start: nat, levels: int, chain: seq<Record>,
    H: string -> string, HData: Option<D> -> string)
    requires HeapShaped(s, k) && HashesFresh(s, H, HData) && b < k
    requires t == s[LeafSlot(|s|, b) := Leaf(x, s[LeafSlot(|s|, b)].hash)]
    requires IsPathChain(t, start, levels, chain)
    ensures BlockData(t, k)[b] == x
    ensures ChainAccepted(chain, levels, H)
  {
    LeafWriteBlocks(s, k, b, x, t);
    forall j | 0 <= j < k - 1 && j < |t|
      ensures NodeFresh(t, j, H, HData)
    {
      assert NodeFresh(s, j, H, HData);
      assert t[2 * j + 1].hash == s[2 * j + 1].hash && t[2 * j + 2].hash == s[2 * j + 2].hash;
    }
    HonestChainAccepted(t, k, start, levels, chain, H, HData);
  }
}
