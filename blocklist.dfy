/**
 * The allocator's policies stated on the list of blocks, independently of
 * the words that encode them: boundary-tag coalescing of a free run, the
 * first-fit search and the placement (with splitting) of a request.
 */
module BlockList {
  import opened Tags
  import opened Heap

  /** First block of the free run ending at block i (walks back over free predecessors). */
  function RunStart(bs: seq<Block>, i: nat): (k: nat)
    requires i < |bs|
    ensures k <= i
    ensures forall t :: k <= t < i ==> !bs[t].isAlloc
    ensures k > 0 ==> bs[k - 1].isAlloc
    decreases i
  {
    if i > 0 && !bs[i - 1].isAlloc then RunStart(bs, i - 1) else i
  }

  /** Last block of the free run starting at block i (walks forward over free successors). */
  function RunEnd(bs: seq<Block>, i: nat): (j: nat)
    requires i < |bs|
    ensures i <= j < |bs|
    ensures forall t :: i < t <= j ==> !bs[t].isAlloc
    ensures j + 1 < |bs| ==> bs[j + 1].isAlloc
    decreases |bs| - i
  {
    if i + 1 < |bs| && !bs[i + 1].isAlloc then RunEnd(bs, i + 1) else i
  }

  /** Blocks k..j replaced by one free block spanning them. */
  function Merge(bs: seq<Block>, k: nat, j: nat): (c: seq<Block>)
    requires k <= j < |bs|
    ensures |c| == |bs| - (j - k) && !c[k].isAlloc
  {
    bs[..k] + [Block(SizeSum(bs[k..j + 1]), false)] + bs[j + 1..]
  }

  /** Boundary-tag coalescing of block i with every free block around it. */
  function Coalesced(bs: seq<Block>, i: nat): (c: seq<Block>)
    requires i < |bs|
    ensures RunStart(bs, i) <= i && |c| == |bs| - (RunEnd(bs, i) - RunStart(bs, i)) && !c[RunStart(bs, i)].isAlloc
  {
    Merge(bs, RunStart(bs, i), RunEnd(bs, i))
  }

  /** No two address-adjacent blocks are both free. */
  ghost predicate NoAdjacentFree(bs: seq<Block>) {
    forall t :: 0 <= t < |bs| - 1 ==> bs[t].isAlloc || bs[t + 1].isAlloc
  }

  /** Every pair of adjacent free blocks involves block i. */
  ghost predicate AdjacentFreeOnlyAt(bs: seq<Block>, i: nat) {
    forall t :: 0 <= t < |bs| - 1 && t != i && t + 1 != i ==> bs[t].isAlloc || bs[t + 1].isAlloc
  }

  /** The allocated blocks of a list, as (payload, size) pairs for payloads starting at bp0. */
  ghost function Live(bp0: int, bs: seq<Block>): set<(int, nat)> {
    set i | 0 <= i < |bs| && bs[i].isAlloc :: (Start(bp0, bs, i), bs[i].size)
  }

  /** A maximal free run k..j: its blocks are free, its neighbours allocated. */
  ghost predicate MaximalRun(bs: seq<Block>, k: nat, j: nat) {
    k <= j < |bs| &&
    (forall t :: k <= t <= j ==> !bs[t].isAlloc) &&
    (k > 0 ==> bs[k - 1].isAlloc) && (j + 1 < |bs| ==> bs[j + 1].isAlloc)
  }

  /** RunStart and RunEnd around a free block delimit a maximal free run. */
  lemma RunIsMaximal(bs: seq<Block>, i: nat)
    requires i < |bs| && !bs[i].isAlloc
    ensures MaximalRun(bs, RunStart(bs, i), RunEnd(bs, i))
    ensures RunStart(bs, i) <= i <= RunEnd(bs, i)
  {
  }

  /**
   * A free run found by walking back from free block i over free
   * predecessors and forward over free successors is the run Coalesced
   * merges, and merging it leaves no two adjacent free blocks when only
   * block i had free neighbours.
   */
  lemma CoalescedRun(bs: seq<Block>, i: nat, k: nat, j: nat)
    requires k <= i <= j < |bs| && !bs[i].isAlloc
    requires RunStart(bs, k) == RunStart(bs, i) && (k > 0 ==> bs[k - 1].isAlloc)
    requires RunEnd(bs, j) == RunEnd(bs, i) && (j + 1 < |bs| ==> bs[j + 1].isAlloc)
    requires AdjacentFreeOnlyAt(bs, i)
    ensures k == RunStart(bs, i) && j == RunEnd(bs, i)
    ensures Coalesced(bs, i) == Merge(bs, k, j)
    ensures NoAdjacentFree(Merge(bs, k, j))
  {
    RunIsMaximal(bs, i);
    MergeNoAdjacentFree(bs, k, j, i);
  }

  /**
   * Merging a run leaves exactly one free block, spanning the run, where the
   * run was, and keeps every other block.
   */
  lemma MergeShape(bs: seq<Block>, k: nat, j: nat)
    requires k <= j < |bs|
    ensures var c := Merge(bs, k, j);
      |c| == |bs| - (j - k) &&
      c[..k] == bs[..k] && c[k + 1..] == bs[j + 1..] &&
      c[k] == Block(SizeSum(bs[k..j + 1]), false)
  {
    var c := Merge(bs, k, j);
    assert c[..k] == bs[..k];
    assert c[k + 1..] == bs[j + 1..];
  }

  /** Merging a run keeps the total size of the heap. */
  lemma MergeSize(bs: seq<Block>, k: nat, j: nat)
    requires k <= j < |bs|
    ensures SizeSum(Merge(bs, k, j)) == SizeSum(bs)
  {
    var m := Block(SizeSum(bs[k..j + 1]), false);
    SizeSumReplace(bs, k, j + 1, [m]);
    SizeSumSingle(m);
  }

  /**
   * Merging a maximal free run restores the heap invariant that no two free
   * blocks are adjacent, when every adjacent free pair involved block i of
   * the run.
   */
  lemma MergeNoAdjacentFree(bs: seq<Block>, k: nat, j: nat, i: nat)
    requires MaximalRun(bs, k, j) && k <= i <= j
    requires AdjacentFreeOnlyAt(bs, i)
    ensures NoAdjacentFree(Merge(bs, k, j))
  {
    var c := Merge(bs, k, j);
    MergeShape(bs, k, j);
    forall t | 0 <= t < |c| - 1
      ensures c[t].isAlloc || c[t + 1].isAlloc
    {
      if t + 1 < k {
        assert c[t] == c[..k][t] == bs[t];
        assert c[t + 1] == c[..k][t + 1] == bs[t + 1];
      } else if t + 1 == k {
        assert c[t] == c[..k][t] == bs[k - 1];
      } else if t == k {
        assert c[t + 1] == c[k + 1..][0] == bs[j + 1];
      } else {
        var u := t - k + j;
        assert c[t] == c[k + 1..][t - k - 1] == bs[u];
        assert c[t + 1] == c[k + 1..][t - k] == bs[u + 1];
      }
    }
  }

  /** The allocated blocks among blocks a..b-1, as (payload, size) pairs. */
  ghost function LiveIn(bp0: int, bs: seq<Block>, a: nat, b: nat): set<(int, nat)>
    requires a <= b <= |bs|
  {
    set t | a <= t < b && bs[t].isAlloc :: (Start(bp0, bs, t), bs[t].size)
  }

  /**
   * A block outside the rewritten range k..e-1 keeps its payload when
   * blocks k..e-1 are replaced by blocks of the same total size.
   */
  lemma KeptIndex(bp0: int, bs: seq<Block>, k: nat, e: nat, ns: seq<Block>, u: nat) returns (t: nat)
    requires k <= e <= |bs| && SizeSum(ns) == SizeSum(bs[k..e])
    requires u < |bs| && !(k <= u < e)
    ensures var l := bs[..k] + ns + bs[e..];
      t < |l| && !(k <= t < k + |ns|) && l[t] == bs[u] && Start(bp0, l, t) == Start(bp0, bs, u)
    ensures t == if u < k then u else u - e + k + |ns|
  {
    var l := bs[..k] + ns + bs[e..];
    if u < k {
      t := u;
      StartBefore(bp0, bs, k, e, ns, t);
      assert l[t] == bs[u];
    } else {
      t := u - e + k + |ns|;
      StartAfter(bp0, bs, k, e, ns, t);
      assert l[t] == bs[u];
    }
  }

  /**
   * A block outside the new blocks k..k+|ns|-1 was, at the same payload,
   * a block outside the rewritten range k..e-1.
   */
  lemma ReplacedIndex(bp0: int, bs: seq<Block>, k: nat, e: nat, ns: seq<Block>, t: nat) returns (u: nat)
    requires k <= e <= |bs| && SizeSum(ns) == SizeSum(bs[k..e])
    requires t < |bs[..k] + ns + bs[e..]| && !(k <= t < k + |ns|)
    ensures var l := bs[..k] + ns + bs[e..];
      u < |bs| && !(k <= u < e) && l[t] == bs[u] && Start(bp0, l, t) == Start(bp0, bs, u)
  {
    var l := bs[..k] + ns + bs[e..];
    if t < k {
      u := t;
      StartBefore(bp0, bs, k, e, ns, t);
      assert l[t] == bs[u];
    } else {
      u := t - k - |ns| + e;
      StartAfter(bp0, bs, k, e, ns, t);
      assert l[t] == bs[u];
    }
  }

  /** Every allocated block after a replacement, other than a new one, was an allocated block, at the same payload, before it. */
  lemma LiveReplaceWas(bp0: int, bs: seq<Block>, k: nat, e: nat, ns: seq<Block>)
    requires k <= e <= |bs| && SizeSum(ns) == SizeSum(bs[k..e])
    ensures var l := bs[..k] + ns + bs[e..];
      Live(bp0, l) <= Live(bp0, bs) + LiveIn(bp0, l, k, k + |ns|)
  {
    var l := bs[..k] + ns + bs[e..];
    forall x | x in Live(bp0, l) && x !in LiveIn(bp0, l, k, k + |ns|)
      ensures x in Live(bp0, bs)
    {
      var t :| 0 <= t < |l| && l[t].isAlloc && x == (Start(bp0, l, t), l[t].size);
      var u := ReplacedIndex(bp0, bs, k, e, ns, t);
      assert bs[u].isAlloc && x == (Start(bp0, bs, u), bs[u].size);
    }
  }

  /** Every allocated block before a replacement, other than a replaced one, is an allocated block, at the same payload, after it. */
  lemma LiveReplaceStays(bp0: int, bs: seq<Block>, k: nat, e: nat, ns: seq<Block>)
    requires k <= e <= |bs| && SizeSum(ns) == SizeSum(bs[k..e])
    ensures var l := bs[..k] + ns + bs[e..];
      Live(bp0, bs) <= Live(bp0, l) + LiveIn(bp0, bs, k, e)
  {
    var l := bs[..k] + ns + bs[e..];
    forall x | x in Live(bp0, bs) && x !in LiveIn(bp0, bs, k, e)
      ensures x in Live(bp0, l)
    {
      var u :| 0 <= u < |bs| && bs[u].isAlloc && x == (Start(bp0, bs, u), bs[u].size);
      var t := KeptIndex(bp0, bs, k, e, ns, u);
      assert l[t].isAlloc && x == (Start(bp0, l, t), l[t].size);
    }
  }

  /**
   * Replacing blocks k..e-1 by blocks of the same total size keeps every
   * other allocated block where it was: the allocated blocks after, with
   * the ones that were replaced, are the allocated blocks before, with the
   * new ones.
   */
  lemma LiveReplace(bp0: int, bs: seq<Block>, k: nat, e: nat, ns: seq<Block>)
    requires k <= e <= |bs| && SizeSum(ns) == SizeSum(bs[k..e])
    ensures var l := bs[..k] + ns + bs[e..];
      Live(bp0, l) + LiveIn(bp0, bs, k, e) == Live(bp0, bs) + LiveIn(bp0, l, k, k + |ns|)
  {
    var l := bs[..k] + ns + bs[e..];
    LiveReplaceWas(bp0, bs, k, e, ns);
    LiveReplaceStays(bp0, bs, k, e, ns);
    assert LiveIn(bp0, bs, k, e) <= Live(bp0, bs);
    assert LiveIn(bp0, l, k, k + |ns|) <= Live(bp0, l);
  }

  /** Merging a free run keeps every allocated block where it was. */
  lemma MergeLive(bp0: int, bs: seq<Block>, k: nat, j: nat)
    requires k <= j < |bs|
    requires forall t :: k <= t <= j ==> !bs[t].isAlloc
    ensures Live(bp0, Merge(bs, k, j)) == Live(bp0, bs)
  {
    var m := Block(SizeSum(bs[k..j + 1]), false);
    SizeSumSingle(m);
    LiveReplace(bp0, bs, k, j + 1, [m]);
    assert LiveIn(bp0, bs, k, j + 1) == {};
    var c := Merge(bs, k, j);
    assert forall t :: k <= t < k + 1 ==> c[t] == m;
    assert LiveIn(bp0, c, k, k + 1) == {};
  }

  // ---------------------------------------------------------------------
  // First fit
  // ---------------------------------------------------------------------

  /** A free block with room for asize bytes. */
  predicate FitsRequest(b: Block, asize: int) {
    !b.isAlloc && asize <= b.size
  }

  /**
   * First-fit search from block `from` on: the lowest index whose block is
   * free and large enough, or |bs| when there is none.
   */
  function FirstFit(bs: seq<Block>, asize: int, from: nat): (i: nat)
    requires from <= |bs|
    ensures from <= i <= |bs|
    ensures i < |bs| ==> FitsRequest(bs[i], asize)
    ensures forall t :: from <= t < i ==> !FitsRequest(bs[t], asize)
    decreases |bs| - from
  {
    if from == |bs| then from
    else if FitsRequest(bs[from], asize) then from
    else FirstFit(bs, asize, from + 1)
  }

  // ---------------------------------------------------------------------
  // Placement
  // ---------------------------------------------------------------------

  /** Smallest block the allocator splits off: header, footer and a double word. */
  const MIN_BLOCK: int := 2 * DSIZE

  /**
   * Placing asize bytes at free block i: split when the remainder is at least
   * the minimum block size, otherwise allocate the whole block.
   */
  function Placed(bs: seq<Block>, i: nat, asize: nat): (p: seq<Block>)
    requires i < |bs| && asize <= bs[i].size
    ensures i < |p| && p[i].isAlloc && asize <= p[i].size <= bs[i].size
    ensures |p| == |bs| + 1 <==> bs[i].size - asize >= MIN_BLOCK
    ensures |p| == |bs| <==> bs[i].size - asize < MIN_BLOCK
  {
    if bs[i].size - asize >= MIN_BLOCK
    then bs[..i] + [Block(asize, true), Block(bs[i].size - asize, false)] + bs[i + 1..]
    else bs[..i] + [Block(bs[i].size, true)] + bs[i + 1..]
  }

  /** Without a split, placement only marks block i allocated. */
  lemma PlacedWhole(bs: seq<Block>, i: nat, asize: nat)
    requires i < |bs| && asize <= bs[i].size && bs[i].size - asize < MIN_BLOCK
    ensures Placed(bs, i, asize) == bs[i := Block(bs[i].size, true)]
  {
  }

  /** A free block contributes no allocated block. */
  lemma LiveInFree(bp0: int, bs: seq<Block>, i: nat)
    requires i < |bs| && !bs[i].isAlloc
    ensures LiveIn(bp0, bs, i, i + 1) == {}
  {
  }

  /** The blocks that take the place of free block i when asize bytes are placed in it. */
  function PlacedBlocks(b: Block, asize: nat): seq<Block> {
    if b.size - asize >= MIN_BLOCK
    then [Block(asize, true), Block(b.size - asize, false)]
    else [Block(b.size, true)]
  }

  /**
   * Placement allocates a block of at least asize bytes at the same payload,
   * wasting less than a minimum block plus alignment, and keeps every other
   * block.
   */
  lemma PlacedShape(bs: seq<Block>, i: nat, asize: nat)
    requires i < |bs| && FitsRequest(bs[i], asize)
    ensures var p := Placed(bs, i, asize);
      var mid := PlacedBlocks(bs[i], asize);
      p == bs[..i] + mid + bs[i + 1..] &&
      i < |p| && p[..i] == bs[..i] && p[i + |mid|..] == bs[i + 1..] &&
      p[i].isAlloc && asize <= p[i].size <= bs[i].size &&
      (p[i].size < bs[i].size ==> bs[i].size - p[i].size >= MIN_BLOCK && !p[i + 1].isAlloc) &&
      (asize % 8 == 0 && bs[i].size % 8 == 0 ==> p[i].size - asize < MIN_BLOCK)
  {
    var p := Placed(bs, i, asize);
    var mid := PlacedBlocks(bs[i], asize);
    assert p == bs[..i] + mid + bs[i + 1..];
    assert p[..i] == bs[..i];
    assert p[i + |mid|..] == bs[i + 1..];
  }

  /** The blocks that take the place of a free block span exactly that block. */
  lemma PlacedBlocksSize(b: Block, asize: nat)
    requires asize <= b.size
    ensures SizeSum(PlacedBlocks(b, asize)) == b.size
  {
    var mid := PlacedBlocks(b, asize);
    if |mid| == 2 {
      assert mid == [mid[0]] + [mid[1]];
      SizeSumAppend([mid[0]], [mid[1]]);
      SizeSumSingle(mid[0]);
      SizeSumSingle(mid[1]);
    } else {
      SizeSumSingle(mid[0]);
    }
  }

  /** Placement keeps the total size of the heap. */
  lemma PlacedSize(bs: seq<Block>, i: nat, asize: nat)
    requires i < |bs| && FitsRequest(bs[i], asize)
    ensures SizeSum(Placed(bs, i, asize)) == SizeSum(bs)
  {
    var mid := PlacedBlocks(bs[i], asize);
    PlacedShape(bs, i, asize);
    SizeSumReplace(bs, i, i + 1, mid);
    assert bs[i..i + 1] == [bs[i]];
    SizeSumSingle(bs[i]);
    PlacedBlocksSize(bs[i], asize);
  }

  /**
   * Placement adds exactly one allocated block, at the payload of the free
   * block it was placed in, and keeps every other allocated block where it
   * was.
   */
  lemma PlacedLive(bp0: int, bs: seq<Block>, i: nat, asize: nat)
    requires i < |bs| && FitsRequest(bs[i], asize)
    ensures Live(bp0, Placed(bs, i, asize)) == Live(bp0, bs) + {(Start(bp0, bs, i), Placed(bs, i, asize)[i].size)}
  {
    var p := Placed(bs, i, asize);
    var mid := PlacedBlocks(bs[i], asize);
    PlacedShape(bs, i, asize);
    assert bs[i..i + 1] == [bs[i]];
    SizeSumSingle(bs[i]);
    PlacedBlocksSize(bs[i], asize);
    LiveReplace(bp0, bs, i, i + 1, mid);
    assert LiveIn(bp0, bs, i, i + 1) == {};
    StartBefore(bp0, bs, i, i + 1, mid, i);
    assert LiveIn(bp0, p, i, i + |mid|) == {(Start(bp0, bs, i), p[i].size)};
  }

  /** Placement never leaves two adjacent free blocks behind. */
  lemma PlacedNoAdjacentFree(bs: seq<Block>, i: nat, asize: nat)
    requires i < |bs| && FitsRequest(bs[i], asize)
    requires NoAdjacentFree(bs)
    ensures NoAdjacentFree(Placed(bs, i, asize))
  {
    var p := Placed(bs, i, asize);
    var mid := PlacedBlocks(bs[i], asize);
    PlacedShape(bs, i, asize);
    forall t | 0 <= t < |p| - 1
      ensures p[t].isAlloc || p[t + 1].isAlloc
    {
      if t + 1 < i {
        assert p[t] == p[..i][t] == bs[t];
        assert p[t + 1] == p[..i][t + 1] == bs[t + 1];
      } else if t + 1 == i {
      } else if t < i + |mid| - 1 {
      } else if t == i + |mid| - 1 {
        assert p[t + 1] == p[i + |mid|..][0] == bs[i + 1];
      } else {
        var u := t - |mid| + 1;
        assert p[t] == p[i + |mid|..][t - i - |mid|] == bs[u];
        assert p[t + 1] == p[i + |mid|..][t + 1 - i - |mid|] == bs[u + 1];
      }
    }
  }

  // ---------------------------------------------------------------------
  // Freeing and extending
  // ---------------------------------------------------------------------

  /** Every block has a positive size (each is at least a header and a footer). */
  ghost predicate PositiveSizes(bs: seq<Block>) {
    forall t :: 0 <= t < |bs| ==> bs[t].size > 0
  }

  /** Block i marked free, with its size kept. */
  function Freed(bs: seq<Block>, i: nat): (f: seq<Block>)
    requires i < |bs|
    ensures |f| == |bs| && !f[i].isAlloc && f[i].size == bs[i].size
    ensures forall t :: 0 <= t < |bs| && t != i ==> f[t] == bs[t]
  {
    bs[i := Block(bs[i].size, false)]
  }

  /** Freeing block i of a list with no adjacent free blocks leaves block i the only one that may have a free neighbour. */
  lemma FreedAdjacent(bs: seq<Block>, i: nat)
    requires i < |bs| && NoAdjacentFree(bs)
    ensures AdjacentFreeOnlyAt(Freed(bs, i), i)
  {
    var f := Freed(bs, i);
    forall t | 0 <= t < |f| - 1 && t != i && t + 1 != i
      ensures f[t].isAlloc || f[t + 1].isAlloc
    {
      assert f[t] == bs[t] && f[t + 1] == bs[t + 1];
    }
  }

  /** No allocated block starts where a free block starts, when every block has a positive size. */
  lemma FreeNotLive(bp0: int, bs: seq<Block>, i: nat, s: nat)
    requires PositiveSizes(bs) && i < |bs| && !bs[i].isAlloc
    ensures (Start(bp0, bs, i), s) !in Live(bp0, bs)
  {
    if (Start(bp0, bs, i), s) in Live(bp0, bs) {
      var t :| 0 <= t < |bs| && bs[t].isAlloc && (Start(bp0, bs, i), s) == (Start(bp0, bs, t), bs[t].size);
      if t < i {
        StartOrder(bp0, bs, t, i);
      } else {
        StartOrder(bp0, bs, i, t);
      }
    }
  }

  /** Freeing allocated block i takes exactly that block out of the allocated ones. */
  lemma FreedLive(bp0: int, bs: seq<Block>, i: nat)
    requires i < |bs| && bs[i].isAlloc
    ensures Live(bp0, bs) == Live(bp0, Freed(bs, i)) + {(Start(bp0, bs, i), bs[i].size)}
    ensures PositiveSizes(bs) ==> (Start(bp0, bs, i), bs[i].size) !in Live(bp0, Freed(bs, i))
  {
    var b := Block(bs[i].size, false);
    var f := Freed(bs, i);
    assert f == bs[..i] + [b] + bs[i + 1..];
    assert bs[i..i + 1] == [bs[i]];
    SizeSumSingle(bs[i]);
    SizeSumSingle(b);
    LiveReplace(bp0, bs, i, i + 1, [b]);
    assert LiveIn(bp0, bs, i, i + 1) == {(Start(bp0, bs, i), bs[i].size)};
    assert LiveIn(bp0, f, i, i + 1) == {};
    if PositiveSizes(bs) && (Start(bp0, bs, i), bs[i].size) in Live(bp0, f) {
      var t :| 0 <= t < |f| && f[t].isAlloc && (Start(bp0, bs, i), bs[i].size) == (Start(bp0, f, t), f[t].size);
      var u := ReplacedIndex(bp0, bs, i, i + 1, [b], t);
      if u < i {
        StartOrder(bp0, bs, u, i);
      } else {
        StartOrder(bp0, bs, i, u);
      }
    }
  }

  /** Appending a free block keeps the allocated blocks. */
  lemma AppendLive(bp0: int, bs: seq<Block>, size: nat)
    ensures Live(bp0, bs + [Block(size, false)]) == Live(bp0, bs)
  {
    var g := bs + [Block(size, false)];
    forall x | x in Live(bp0, g)
      ensures x in Live(bp0, bs)
    {
      var t :| 0 <= t < |g| && g[t].isAlloc && x == (Start(bp0, g, t), g[t].size);
      assert g[..t] == bs[..t];
    }
    forall x | x in Live(bp0, bs)
      ensures x in Live(bp0, g)
    {
      var t :| 0 <= t < |bs| && bs[t].isAlloc && x == (Start(bp0, bs, t), bs[t].size);
      assert g[..t] == bs[..t];
      assert g[t] == bs[t];
    }
  }

  /**
   * Coalescing a free block appended after an allocated first block leaves
   * one free block last, starting where the free run before it started, at
   * least as large as the appended block.
   */
  lemma CoalescedAppend(bs: seq<Block>, size: nat)
    requires |bs| >= 1 && bs[0].isAlloc
    ensures var g := bs + [Block(size, false)];
      var c := Coalesced(g, |bs|);
      var k := RunStart(g, |bs|);
      1 <= k && |c| == k + 1 && !c[k].isAlloc && c[k].size >= size
  {
    var g := bs + [Block(size, false)];
    var k := RunStart(g, |bs|);
    assert RunEnd(g, |bs|) == |bs|;
    MergeShape(g, k, |bs|);
    var run := g[k..|bs| + 1];
    assert run[..|run| - 1] + [run[|run| - 1]] == run;
    assert run[|run| - 1] == Block(size, false);
  }

  /** Extending the heap and coalescing keeps the allocated blocks. */
  lemma ExtendLive(bp0: int, bs: seq<Block>, size: nat)
    ensures Live(bp0, Coalesced(bs + [Block(size, false)], |bs|)) == Live(bp0, bs)
  {
    var g := bs + [Block(size, false)];
    RunIsMaximal(g, |bs|);
    MergeLive(bp0, g, RunStart(g, |bs|), RunEnd(g, |bs|));
    AppendLive(bp0, bs, size);
  }

  /** Freeing block i and coalescing takes exactly that block out of the allocated ones. */
  lemma FreeLive(bp0: int, bs: seq<Block>, i: nat)
    requires i < |bs| && bs[i].isAlloc
    ensures Live(bp0, bs) == Live(bp0, Coalesced(Freed(bs, i), i)) + {(Start(bp0, bs, i), bs[i].size)}
    ensures PositiveSizes(bs) ==> (Start(bp0, bs, i), bs[i].size) !in Live(bp0, Coalesced(Freed(bs, i), i))
  {
    var f := Freed(bs, i);
    RunIsMaximal(f, i);
    MergeLive(bp0, f, RunStart(f, i), RunEnd(f, i));
    FreedLive(bp0, bs, i);
  }

  // ---------------------------------------------------------------------
  // The outcome of an allocation
  // ---------------------------------------------------------------------

  /**
   * The block mm_malloc places a request of asize bytes in: the first fit,
   * or, when nothing fits, the first block of the free run that ends the
   * heap once a free block of `extend` bytes has been appended to it.
   */
  function MallocIndex(bs: seq<Block>, asize: nat, extend: nat): (k: nat)
    ensures k <= |bs|
    ensures FirstFit(bs, asize, 0) < |bs| ==> k == FirstFit(bs, asize, 0)
  {
    var f := FirstFit(bs, asize, 0);
    if f < |bs| then f else RunStart(bs + [Block(extend, false)], |bs|)
  }

  /**
   * The block list mm_malloc leaves: asize bytes placed at the first fit, or,
   * when nothing fits, at the end of the heap grown by `extend` bytes and
   * coalesced. The placed block is a user block, allocated, of at least
   * asize bytes.
   */
  function MallocBlocks(bs: seq<Block>, asize: nat, extend: nat): (p: seq<Block>)
    requires |bs| >= 1 && bs[0].isAlloc && asize <= extend
    ensures 0 < MallocIndex(bs, asize, extend) < |p|
    ensures p[MallocIndex(bs, asize, extend)].isAlloc && asize <= p[MallocIndex(bs, asize, extend)].size
  {
    var f := FirstFit(bs, asize, 0);
    if f < |bs| then
      PlacedShape(bs, f, asize);
      Placed(bs, f, asize)
    else
      var g := bs + [Block(extend, false)];
      CoalescedAppend(bs, extend);
      PlacedShape(Coalesced(g, |bs|), RunStart(g, |bs|), asize);
      Placed(Coalesced(g, |bs|), RunStart(g, |bs|), asize)
  }

  /** Where block i of bs sits after the allocation: past the placed block, blocks move up by the blocks a split adds. */
  function MallocShift(bs: seq<Block>, asize: nat, extend: nat, i: nat): int
    requires |bs| >= 1 && bs[0].isAlloc && asize <= extend
  {
    if i < MallocIndex(bs, asize, extend) then i else i + |MallocBlocks(bs, asize, extend)| - |bs|
  }

  /**
   * An allocation keeps every allocated user block i: it is block
   * MallocShift(i) afterwards, unchanged, at the same payload, and not the
   * block just placed.
   */
  lemma MallocKeeps(bp0: int, bs: seq<Block>, asize: nat, extend: nat, i: nat)
    requires |bs| >= 1 && bs[0].isAlloc && asize <= extend
    requires 0 < i < |bs| && bs[i].isAlloc
    ensures var p := MallocBlocks(bs, asize, extend); var j := MallocShift(bs, asize, extend, i);
      0 < j < |p| && j != MallocIndex(bs, asize, extend) && p[j] == bs[i] && Start(bp0, p, j) == Start(bp0, bs, i)
  {
    var f := FirstFit(bs, asize, 0);
    if f < |bs| {
      FoundKeeps(bp0, bs, f, asize, i);
    } else {
      ExtendedKeeps(bp0, bs, asize, extend, i);
    }
  }

  /** Placing in free block f keeps allocated block i, which moves up by the blocks a split adds when it lies past f. */
  lemma FoundKeeps(bp0: int, bs: seq<Block>, f: nat, asize: nat, i: nat)
    requires f < |bs| && FitsRequest(bs[f], asize)
    requires i < |bs| && bs[i].isAlloc
    ensures var p := Placed(bs, f, asize); var j := if i < f then i else i + |p| - |bs|;
      0 <= j < |p| && j != f && p[j] == bs[i] && Start(bp0, p, j) == Start(bp0, bs, i)
  {
    var mid := PlacedBlocks(bs[f], asize);
    PlacedShape(bs, f, asize);
    assert SizeSum(mid) == SizeSum(bs[f..f + 1]) by {
      assert bs[f..f + 1] == [bs[f]];
      SizeSumSingle(bs[f]);
      PlacedBlocksSize(bs[f], asize);
    }
    var t := KeptIndex(bp0, bs, f, f + 1, mid, i);
  }

  /**
   * Extending the heap, coalescing and placing at the free run that ends it
   * keeps every allocated block i, at its index: it lies before that run.
   */
  lemma ExtendedKeeps(bp0: int, bs: seq<Block>, asize: nat, extend: nat, i: nat)
    requires |bs| >= 1 && bs[0].isAlloc && asize <= extend
    requires i < |bs| && bs[i].isAlloc
    ensures var g := bs + [Block(extend, false)]; var k := RunStart(g, |bs|); var c := Coalesced(g, |bs|);
      k < |c| && asize <= c[k].size && i < k &&
      var p := Placed(c, k, asize); i < |p| && p[i] == bs[i] && Start(bp0, p, i) == Start(bp0, bs, i)
  {
    var g := bs + [Block(extend, false)];
    var k := RunStart(g, |bs|);
    var c := Coalesced(g, |bs|);
    assert i < k by { assert g[i] == bs[i]; }
    ExtendedPrefix(bs, asize, extend);
    var p := Placed(c, k, asize);
    assert p[..i] == bs[..i] by {
      assert p[..i] == p[..k][..i];
      assert bs[..i] == bs[..k][..i];
    }
    assert p[i] == bs[i] by {
      assert p[i] == p[..k][i];
      assert bs[i] == bs[..k][i];
    }
  }

  /** Blocks before the free run that ends the extended heap are the same after coalescing and placing. */
  lemma ExtendedPrefix(bs: seq<Block>, asize: nat, extend: nat)
    requires |bs| >= 1 && bs[0].isAlloc && asize <= extend
    ensures var g := bs + [Block(extend, false)]; var k := RunStart(g, |bs|); var c := Coalesced(g, |bs|);
      k < |c| && asize <= c[k].size &&
      var p := Placed(c, k, asize); k <= |p| && k <= |bs| && p[..k] == bs[..k]
  {
    var g := bs + [Block(extend, false)];
    var k := RunStart(g, |bs|);
    var c := Coalesced(g, |bs|);
    CoalescedAppend(bs, extend);
    assert c[..k] == bs[..k] by {
      assert RunEnd(g, |bs|) == |bs|;
      MergeShape(g, k, |bs|);
      assert g[..k] == bs[..k];
    }
    PlacedShape(c, k, asize);
  }
}
