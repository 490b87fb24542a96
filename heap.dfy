/** Index arithmetic of a complete binary tree stored in one flat array
    (heap layout): node `i` has its children at `2i+1` and `2i+2`, and the
    root is at index 0. Nothing here looks at the nodes themselves. */
module HeapIndex {

  /** 2 to the power `e`. */
  function Pow2(e: nat): (p: nat)
    ensures p >= 1
  {
    if e == 0 then 1 else 2 * Pow2(e - 1)
  }

  lemma {:induction false} Pow2Add(a: nat, b: nat)
    ensures Pow2(a + b) == Pow2(a) * Pow2(b)
  {
    if a > 0 {
      Pow2Add(a - 1, b);
      assert Pow2(a + b) == 2 * Pow2(a - 1 + b);
    }
  }

  /** A smaller exponent gives at most half the power. */
  lemma {:induction false} Pow2Grows(a: nat, b: nat)
    requires a < b
    ensures 2 * Pow2(a) <= Pow2(b)
  {
    if a + 1 < b {
      Pow2Grows(a, b - 1);
    }
  }

  lemma Pow2Monotone(a: nat, b: nat)
    ensures a <= b ==> Pow2(a) <= Pow2(b)
  {
    if a < b {
      Pow2Grows(a, b);
    }
  }

  /** Exponents whose powers bracket the same number are equal: the floor of
      the binary logarithm is unique. */
  lemma Log2Unique(d: nat, e: nat, x: nat)
    requires Pow2(d) <= x < 2 * Pow2(d)
    requires Pow2(e) <= x < 2 * Pow2(e)
    ensures d == e
  {
    if d < e {
      Pow2Grows(d, e);
    } else if e < d {
      Pow2Grows(e, d);
    }
  }

  /** The exponent of the smallest power of two that is at least `n`: the
      tree rounds its requested block count up to `Pow2(CeilLog2(n))` and uses
      `CeilLog2(n)` as its number of levels. */
  function CeilLog2(n: nat): (e: nat)
    requires n >= 1
    ensures n <= Pow2(e)
    ensures e == 0 || Pow2(e - 1) < n
  {
    if n == 1 then 0 else 1 + CeilLog2((n + 1) / 2)
  }

  /** No smaller power of two holds `n` blocks. */
  lemma LeafCountIsLeast(n: nat, e: nat)
    requires n >= 1
    requires n <= Pow2(e)
    ensures CeilLog2(n) <= e
  {
    var c := CeilLog2(n);
    if c > 0 {
      Pow2Monotone(e, c - 1);
    }
  }

  /** The parent of a non-root index: an odd index is its parent's left
      child, an even one its parent's right child. */
  function Parent(n: nat): (p: nat)
    requires n > 0
    ensures n % 2 == 1 ==> n == 2 * p + 1
    ensures n % 2 == 0 ==> n == 2 * p + 2
  {
    if n % 2 == 1 then (n - 1) / 2 else (n - 2) / 2
  }

  /** Both children of `p` lead back to `p`. */
  lemma ParentOfChild(p: nat)
    ensures Parent(2 * p + 1) == p && Parent(2 * p + 2) == p
  {
    assert (2 * p + 1) % 2 == 1;
    assert (2 * p + 2) % 2 == 0;
  }

  /** Number of steps from index `n` up to the root: the floor of the binary
      logarithm of `n + 1`. */
  function Depth(n: nat): (d: nat)
    decreases n
  {
    if n == 0 then 0 else 1 + Depth(Parent(n))
  }

  lemma {:induction false} DepthBounds(n: nat)
    ensures Pow2(Depth(n)) <= n + 1 < 2 * Pow2(Depth(n))
    decreases n
  {
    if n > 0 {
      DepthBounds(Parent(n));
    }
  }

  /** The node `r` steps above `n`; `r` cannot go past the root. */
  function Ancestor(n: nat, r: nat): (a: nat)
    requires r <= Depth(n)
    decreases r
  {
    if r == 0 then n else Ancestor(Parent(n), r - 1)
  }

  /** Walking up `r` steps from `n` reaches depth `Depth(n) - r`; one more
      step is one more parent; the walk ends at the root. */
  lemma {:induction false} AncestorStep(n: nat, r: nat)
    requires r <= Depth(n)
    ensures Depth(Ancestor(n, r)) == Depth(n) - r
    ensures Ancestor(n, r) <= n
    ensures r == Depth(n) ==> Ancestor(n, r) == 0
    ensures r < Depth(n) ==> Ancestor(n, r) > 0 && Ancestor(n, r + 1) == Parent(Ancestor(n, r))
    decreases r
  {
    if r > 0 {
      AncestorStep(Parent(n), r - 1);
    }
  }

  /** `j` lies in the subtree rooted at `i` (`i` itself included). */
  predicate Desc(i: nat, j: nat)
    decreases j
  {
    j == i || (j > i && Desc(i, Parent(j)))
  }

  lemma DescAbove(i: nat, j: nat)
    requires Desc(i, j)
    ensures i <= j
  {
  }

  /** Below `i` come only `i` itself and indices from its left child on. */
  lemma {:induction false} DescBelow(i: nat, j: nat)
    requires Desc(i, j)
    ensures j == i || j >= 2 * i + 1
    decreases j
  {
    if j != i {
      var p := Parent(j);
      if p != i {
        DescBelow(i, p);
      }
    }
  }

  /** A subtree contains the children of each of its nodes. */
  lemma DescChildren(i: nat, j: nat)
    requires Desc(i, j)
    ensures Desc(i, 2 * j + 1) && Desc(i, 2 * j + 2)
  {
    ParentOfChild(j);
  }

  /** The subtree of `i` is `i` together with the subtrees of its two
      children: the shape of the recursive recompute. */
  lemma {:induction false} DescSplit(i: nat, j: nat)
    ensures Desc(i, j) <==> (j == i || Desc(2 * i + 1, j) || Desc(2 * i + 2, j))
    decreases j
  {
    ParentOfChild(i);
    if j > i {
      var p := Parent(j);
      if j == 2 * i + 1 || j == 2 * i + 2 {
        assert p == i;
      } else if Desc(i, j) {
        assert Desc(i, p);
        assert p != i;
        DescSplit(i, p);
        assert Desc(2 * i + 1, p) || Desc(2 * i + 2, p);
      } else if Desc(2 * i + 1, j) || Desc(2 * i + 2, j) {
        assert j > 2 * i + 1;
        assert Desc(2 * i + 1, p) || Desc(2 * i + 2, p);
        DescSplit(i, p);
      }
    }
  }

  /** The two subtrees below a node share no index. */
  lemma {:induction false} DescDisjoint(i: nat, j: nat)
    ensures !(Desc(2 * i + 1, j) && Desc(2 * i + 2, j))
    decreases j
  {
    if Desc(2 * i + 1, j) && Desc(2 * i + 2, j) {
      if j == 2 * i + 2 {
        ParentOfChild(i);
        assert Desc(2 * i + 1, i);
        DescAbove(2 * i + 1, i);
      } else {
        DescAbove(2 * i + 2, j);
        DescDisjoint(i, Parent(j));
      }
    }
  }

  /** Every index lies in the subtree of the root. */
  lemma {:induction false} RootCoversAll(j: nat)
    ensures Desc(0, j)
    decreases j
  {
    if j > 0 {
      RootCoversAll(Parent(j));
    }
  }
}
