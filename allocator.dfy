/**
 * The allocator's state and operations: the heap region as a map from
 * word addresses to 32-bit words, the break of the region (grown by mem_sbrk), the globals
 * heap_listp and root, and the operations that write boundary tags in place.
 *
 * The ghost field `blocks` is the list of blocks the tags describe; the
 * invariant Ready() ties it to the words of the region.
 *
 * mm_init, extend_heap, mm_realloc and mm_checkheap follow their bodies
 * statement by statement, except that where the first three call an
 * unfinished function (coalesce, mm_malloc, mm_free) they call the intended
 * one, and mm_realloc's memcpy copies whole words. find_fit, place,
 * coalesce, mm_malloc and mm_free are unfinished in the source; the methods
 * marked INTENT model what their comments describe (first fit, splitting
 * placement, boundary-tag coalescing), not their bodies.
 */
module Allocator {
  import opened Tags
  import opened Heap
  import opened BlockList
  import opened Checker

  const NULL: int := 0

  /** The value mem_sbrk returns when the region cannot grow: (void *) -1. */
  const SBRK_FAILED: int := -1

  /**
   * extend_heap's byte count: `words` rounded up to an even number of words,
   * in 32-bit unsigned arithmetic (`words + 1` wraps to 0, and the product
   * by WSIZE keeps its low 32 bits).
   */
  function ExtendSize(words: Word): (size: Word)
    ensures size % DSIZE == 0
    ensures (words + 1) * WSIZE < WORD_LIMIT ==>
      words * WSIZE <= size < words * WSIZE + DSIZE && (words % 2 == 0 ==> size == words * WSIZE)
  {
    var even := if words % 2 == 0 then words else if words == WORD_LIMIT - 1 then 0 else words + 1;
    (even % 0x4000_0000) * WSIZE
  }

  /** mm_malloc's extension MAX(asize, CHUNKSIZE), passed to extend_heap in words, comes back unchanged as its byte count. */
  lemma ChunkWords(asize: Word)
    requires asize % DSIZE == 0
    ensures var e := Max(asize, CHUNKSIZE); e > 0 && e / WSIZE < WORD_LIMIT && ExtendSize(e / WSIZE) == e
  {
    var e := Max(asize, CHUNKSIZE);
    var k := e / DSIZE;
    assert e == DSIZE * k;
    assert e / WSIZE == 2 * k;
    assert (e / WSIZE) % 2 == 0;
  }

  /** A block written as a header and a footer is a one-block segment. */
  lemma OneBlock(h: Image, bp: int, b: Block)
    requires BlockAt(h, bp, b)
    ensures Segment(h, bp, [b])
  {
    assert Start(bp, [b], 0) == bp by {
      assert [b][..0] == [];
    }
  }

  /**
   * Writing v to the words at p1 and then p2, both inside [from, to), leaves
   * v in both and every word outside [from, to) alone.
   */
  lemma PutTwice(h: Image, p1: int, p2: int, v: Word, from: int, to: int)
    requires h.InRange(p1) && h.InRange(p2)
    requires from <= p1 < to && from <= p2 < to
    ensures AgreeOutside(h, h.Put(p1, v).Put(p2, v), from, to)
    ensures h.Put(p1, v).Put(p2, v).Get(p1) == v && h.Put(p1, v).Put(p2, v).Get(p2) == v
  {
  }

  /** The prologue's payload is heap_listp, and block k >= 1 starts at least a word past the pad. */
  lemma PastPrologue(h: Image, hp: int, bs: seq<Block>, k: nat)
    requires WellFormed(h, hp, bs)
    requires 1 <= k <= |bs|
    ensures Start(hp, bs, 0) == hp
    ensures Start(hp, bs, k) >= hp + DSIZE
  {
    assert bs[..0] == [];
    StartOrder(hp, bs, 0, k);
    assert BlockAt(h, Start(hp, bs, 0), bs[0]);
  }

  /** The pad word and the prologue survive a rewrite of blocks from 1 on. */
  lemma KeepsPrologue(h: Image, h': Image, hp: int, bs: seq<Block>, bs': seq<Block>, k: nat, to: int)
    requires WellFormed(h, hp, bs)
    requires 1 <= k <= |bs|
    requires AgreeOutside(h, h', Start(hp, bs, k) - WSIZE, to)
    requires Layout(h', hp, bs') && |bs'| >= 1 && bs'[0] == bs[0]
    ensures WellFormed(h', hp, bs')
  {
    PastPrologue(h, hp, bs, k);
  }

  /**
   * A run of blocks k..j rewritten, with no word outside it changed, as one
   * free block whose header and footer hold its size: the blocks are merged.
   */
  lemma MergeLayout(h: Image, h': Image, hp: int, bs: seq<Block>, k: nat, j: nat, size: Word)
    requires Layout(h, hp, bs)
    requires k <= j < |bs|
    requires size == Start(hp, bs, j + 1) - Start(hp, bs, k)
    requires AgreeOutside(h, h', Start(hp, bs, k) - WSIZE, Start(hp, bs, j + 1) - WSIZE)
    requires h.InRange(Start(hp, bs, k) - WSIZE) && h'.Get(Start(hp, bs, k) - WSIZE) == Pack(size, 0)
    requires h.InRange(Start(hp, bs, j + 1) - DSIZE) && h'.Get(Start(hp, bs, j + 1) - DSIZE) == Pack(size, 0)
    ensures Layout(h', hp, Merge(bs, k, j))
  {
    var m := Block(size, false);
    LayoutSpan(h, hp, bs, k, j + 1);
    assert BlockAt(h, Start(hp, bs, k), bs[k]);
    assert BlockAt(h', Start(hp, bs, k), m);
    OneBlock(h', Start(hp, bs, k), m);
    SizeSumSingle(m);
    Replace(h, h', hp, bs, k, j + 1, [m]);
  }

  /**
   * The tag of a free block spanning blocks k..j (k >= 1) written over the
   * header of block k and the footer of block j, with no word outside them
   * changed, merges them in a well-formed heap.
   */
  lemma MergeWritten(h: Image, h': Image, hp: int, bs: seq<Block>, k: nat, j: nat, size: Word)
    requires WellFormed(h, hp, bs)
    requires 1 <= k <= j < |bs|
    requires size == Start(hp, bs, j + 1) - Start(hp, bs, k)
    requires AgreeOutside(h, h', Start(hp, bs, k) - WSIZE, Start(hp, bs, j + 1) - WSIZE)
    requires h.InRange(Start(hp, bs, k) - WSIZE) && h'.Get(Start(hp, bs, k) - WSIZE) == Pack(size, 0)
    requires h.InRange(Start(hp, bs, j + 1) - DSIZE) && h'.Get(Start(hp, bs, j + 1) - DSIZE) == Pack(size, 0)
    ensures WellFormed(h', hp, Merge(bs, k, j))
  {
    MergeLayout(h, h', hp, bs, k, j, size);
    var c := Merge(bs, k, j);
    assert c[0] == bs[0];
    KeepsPrologue(h, h', hp, bs, c, k, Start(hp, bs, j + 1) - WSIZE);
  }

  /**
   * What coalesce's two writes do to a well-formed heap in which block i is
   * the only free block with a free neighbour: the free run around i becomes
   * one free block starting where the run started, and the heap stays
   * well-formed with no two free blocks adjacent.
   */
  lemma CoalesceWritten(h: Image, h': Image, hp: int, bs: seq<Block>, i: nat, k: nat, j: nat, size: Word)
    requires WellFormed(h, hp, bs)
    requires 0 < i < |bs| && !bs[i].isAlloc && AdjacentFreeOnlyAt(bs, i)
    requires k == RunStart(bs, i) && 1 <= k && j == RunEnd(bs, i)
    requires size == Start(hp, bs, j + 1) - Start(hp, bs, k)
    requires AgreeOutside(h, h', Start(hp, bs, k) - WSIZE, Start(hp, bs, j + 1) - WSIZE)
    requires h.InRange(Start(hp, bs, k) - WSIZE) && h'.Get(Start(hp, bs, k) - WSIZE) == Pack(size, 0)
    requires h.InRange(Start(hp, bs, j + 1) - DSIZE) && h'.Get(Start(hp, bs, j + 1) - DSIZE) == Pack(size, 0)
    ensures WellFormed(h', hp, Coalesced(bs, i)) && NoAdjacentFree(Coalesced(bs, i))
    ensures Start(hp, Coalesced(bs, i), k) == Start(hp, bs, k)
  {
    MergeWritten(h, h', hp, bs, k, j, size);
    RunIsMaximal(bs, i);
    CoalescedRun(bs, i, k, j);
    StartBefore(hp, bs, k, j + 1, [Block(SizeSum(bs[k..j + 1]), false)], k);
  }

  /** The header of the first block of a run k..j lies before the footer of its last block. */
  lemma RunTags(h: Image, hp: int, bs: seq<Block>, k: nat, j: nat)
    requires Layout(h, hp, bs)
    requires k <= j < |bs|
    ensures h.InRange(Start(hp, bs, k) - WSIZE) && h.InRange(Start(hp, bs, j + 1) - DSIZE)
    ensures Start(hp, bs, k) + DSIZE <= Start(hp, bs, j + 1)
  {
    LayoutSpan(h, hp, bs, k, j + 1);
    assert BlockAt(h, Start(hp, bs, k), bs[k]);
    LayoutNext(h, hp, bs, j);
    assert BlockAt(h, Start(hp, bs, j), bs[j]);
  }

  /**
   * After the header of block k is rewritten with the size of the run k..j,
   * and nothing else, FTRP of block j is still the last word of block j (for
   * k == j it reads the new header, which holds the same size).
   */
  lemma FooterAfterHeader(h: Image, h': Image, hp: int, bs: seq<Block>, k: nat, j: nat, size: Word)
    requires Layout(h, hp, bs)
    requires k <= j < |bs|
    requires size == Start(hp, bs, j + 1) - Start(hp, bs, k)
    requires AgreeOutside(h, h', Start(hp, bs, k) - WSIZE, Start(hp, bs, k))
    requires h.InRange(Start(hp, bs, k) - WSIZE) && h'.Get(Start(hp, bs, k) - WSIZE) == Pack(size, 0)
    ensures h'.InRange(Hdrp(Start(hp, bs, j)))
    ensures Ftrp(h', Start(hp, bs, j)) == Start(hp, bs, j + 1) - DSIZE
    ensures h'.InRange(Start(hp, bs, j + 1) - DSIZE)
  {
    LayoutNext(h, hp, bs, j);
    LayoutSpan(h, hp, bs, k, j + 1);
    assert BlockAt(h, Start(hp, bs, j), bs[j]);
    if k < j {
      StartOrder(hp, bs, k, j);
    }
  }

  /**
   * INTENT of coalesce's first loop: from free block bp, walks back over
   * PREV_BLKP while the block there is free (its allocated bit read from the
   * header); returns the first block of the free run. The source reads the
   * bit at the payload instead.
   */
  method WalkBack(h: Image, bp: int, ghost hp: int, ghost bs: seq<Block>, ghost i: nat) returns (backLimit: int, ghost k: nat)
    requires 0 < i < |bs| && Layout(h, hp, bs) && bs[0] == Prologue && NULL < h.lo < hp
    requires !bs[i].isAlloc && bp == Start(hp, bs, i)
    ensures k == RunStart(bs, i) && 1 <= k && backLimit == Start(hp, bs, k)
  {
    backLimit := bp;
    k := i;
    LayoutPrev(h, hp, bs, i);
    LayoutHeader(h, hp, bs, i - 1);
    var temp := PrevBlkp(h, backLimit);
    while temp != NULL && GetAlloc(h, Hdrp(temp)) == 0
      invariant 1 <= k <= i
      invariant backLimit == Start(hp, bs, k) && temp == Start(hp, bs, k - 1)
      invariant h.InRange(Hdrp(temp)) && GetAlloc(h, Hdrp(temp)) == Flag(bs[k - 1])
      invariant RunStart(bs, k) == RunStart(bs, i)
      decreases k
    {
      backLimit := temp;
      k := k - 1;
      assert k != 0 by {
        assert bs[0] == Prologue;
      }
      LayoutPrev(h, hp, bs, k);
      LayoutHeader(h, hp, bs, k - 1);
      temp := PrevBlkp(h, backLimit);
    }
  }

  /** NEXT_BLKP of block t of a layout, and the allocated bit in its header (the epilogue's past the last block). */
  lemma NextHeader(h: Image, hp: int, bs: seq<Block>, t: nat)
    requires Layout(h, hp, bs) && t < |bs|
    ensures NextBlkp(h, Start(hp, bs, t)) == Start(hp, bs, t + 1)
    ensures h.InRange(Hdrp(Start(hp, bs, t + 1)))
    ensures GetAlloc(h, Hdrp(Start(hp, bs, t + 1))) == if t + 1 < |bs| then Flag(bs[t + 1]) else 1
  {
    LayoutNext(h, hp, bs, t);
    LayoutHeader(h, hp, bs, t + 1);
  }

  /**
   * INTENT of coalesce's second loop: from free block bp, walks forward over
   * NEXT_BLKP while the block there is free (its bit read from the header);
   * returns the last block of the free run. The epilogue, being allocated,
   * stops the walk. The source reads the bit at the payload and steps with
   * PREV_BLKP.
   */
  method WalkForward(h: Image, bp: int, ghost hp: int, ghost bs: seq<Block>, ghost i: nat) returns (frontLimit: int, ghost j: nat)
    requires 0 < i < |bs| && Layout(h, hp, bs) && bs[0] == Prologue && NULL < h.lo < hp
    requires !bs[i].isAlloc && bp == Start(hp, bs, i)
    ensures j == RunEnd(bs, i) && frontLimit == Start(hp, bs, j)
  {
    frontLimit := bp;
    j := i;
    NextHeader(h, hp, bs, i);
    var temp := NextBlkp(h, frontLimit);
    while temp != NULL && GetAlloc(h, Hdrp(temp)) == 0
      invariant i <= j < |bs|
      invariant frontLimit == Start(hp, bs, j) && temp == Start(hp, bs, j + 1)
      invariant h.InRange(Hdrp(temp))
      invariant GetAlloc(h, Hdrp(temp)) == (if j + 1 < |bs| then Flag(bs[j + 1]) else 1)
      invariant RunEnd(bs, j) == RunEnd(bs, i)
      decreases |bs| - j
    {
      frontLimit := temp;
      j := j + 1;
      NextHeader(h, hp, bs, j);
      temp := NextBlkp(h, frontLimit);
    }
  }

  /**
   * INTENT of coalesce's reading half: the walk back and the walk forward
   * from free block bp, and the size of the free run they delimit. The source
   * computes the size as the distance between the addresses of two locals.
   */
  method CoalesceWalks(h: Image, bp: int, ghost hp: int, ghost bs: seq<Block>, ghost i: nat)
    returns (backLimit: int, frontLimit: int, size: Word, ghost k: nat, ghost j: nat)
    requires WellFormed(h, hp, bs) && NULL < h.lo && h.hi < h.lo + WORD_LIMIT
    requires 0 < i < |bs| && !bs[i].isAlloc && bp == Start(hp, bs, i)
    ensures k == RunStart(bs, i) && 1 <= k && j == RunEnd(bs, i)
    ensures backLimit == Start(hp, bs, k) && frontLimit == Start(hp, bs, j)
    ensures size == Start(hp, bs, j + 1) - Start(hp, bs, k)
  {
    backLimit, k := WalkBack(h, bp, hp, bs, i);
    PastPrologue(h, hp, bs, k);
    frontLimit, j := WalkForward(h, bp, hp, bs, i);
    LayoutNext(h, hp, bs, j);
    LayoutSpan(h, hp, bs, k, j + 1);
    size := NextBlkp(h, frontLimit) - backLimit;
  }

  /**
   * The first write of coalesce: the free tag of the run's size k..j goes to
   * the header of block k; FTRP of block j is then still the last word of
   * block j (for k == j it reads the header just written, which holds the
   * same size).
   */
  lemma HeaderWritten(h: Image, hp: int, bs: seq<Block>, k: nat, j: nat, size: Word)
    requires Layout(h, hp, bs)
    requires k <= j < |bs|
    requires size == Start(hp, bs, j + 1) - Start(hp, bs, k)
    ensures h.InRange(Hdrp(Start(hp, bs, k))) && h.InRange(Start(hp, bs, j + 1) - DSIZE)
    ensures var h1 := h.Put(Hdrp(Start(hp, bs, k)), Pack(size, 0));
      h1.InRange(Hdrp(Start(hp, bs, j))) &&
      Ftrp(h1, Start(hp, bs, j)) == Start(hp, bs, j + 1) - DSIZE &&
      h1.InRange(Start(hp, bs, j + 1) - DSIZE)
  {
    RunTags(h, hp, bs, k, j);
    LayoutSpan(h, hp, bs, k, j + 1);
    assert BlockAt(h, Start(hp, bs, k), bs[k]);
    var h1 := h.Put(Hdrp(Start(hp, bs, k)), Pack(size, 0));
    FooterAfterHeader(h, h1, hp, bs, k, j, size);
  }

  /**
   * Both writes of coalesce: with the free tag of the run's size in the
   * header of its first block and the footer of its last, the heap is
   * well-formed with the run merged into one free block starting where the
   * run started, and no two free blocks are adjacent.
   */
  lemma CoalesceEffect(h: Image, h2: Image, hp: int, bs: seq<Block>, i: nat, k: nat, j: nat, size: Word)
    requires WellFormed(h, hp, bs)
    requires 0 < i < |bs| && !bs[i].isAlloc && AdjacentFreeOnlyAt(bs, i)
    requires k == RunStart(bs, i) && 1 <= k && j == RunEnd(bs, i)
    requires size == Start(hp, bs, j + 1) - Start(hp, bs, k)
    requires h.InRange(Start(hp, bs, k) - WSIZE) && h.InRange(Start(hp, bs, j + 1) - DSIZE)
    requires h2.lo == h.lo && h2.hi == h.hi
    requires h2.words == h.words[Start(hp, bs, k) - WSIZE := Pack(size, 0)][Start(hp, bs, j + 1) - DSIZE := Pack(size, 0)]
    ensures WellFormed(h2, hp, Coalesced(bs, i)) && NoAdjacentFree(Coalesced(bs, i))
    ensures Start(hp, Coalesced(bs, i), k) == Start(hp, bs, k)
    ensures KeepsBlocks(h, h2, Live(hp, bs))
  {
    var from := Start(hp, bs, k) - WSIZE;
    var to := Start(hp, bs, j + 1) - DSIZE;
    assert k <= i;
    assert i <= j;
    assert j < |bs|;
    assert Layout(h, hp, bs);
    RunTags(h, hp, bs, k, j);
    PutTwice(h, from, to, Pack(size, 0), from, to + WSIZE);
    assert h2 == h.Put(from, Pack(size, 0)).Put(to, Pack(size, 0));
    CoalesceWritten(h, h2, hp, bs, i, k, j, size);
    RunIsMaximal(bs, i);
    FreeRunKept(h, h2, hp, bs, k, j);
  }

  /** Rewriting only words of a free run k..j keeps every allocated block. */
  lemma FreeRunKept(h: Image, h': Image, hp: int, bs: seq<Block>, k: nat, j: nat)
    requires k <= j < |bs| && forall t :: k <= t <= j ==> !bs[t].isAlloc
    requires AgreeOutside(h, h', Start(hp, bs, k) - WSIZE, Start(hp, bs, j + 1) - WSIZE)
    ensures KeepsBlocks(h, h', Live(hp, bs))
  {
    KeptBlocks(h, h', hp, bs, k, j + 1, Start(hp, bs, j + 1) - WSIZE);
    assert LiveIn(hp, bs, k, j + 1) == {};
  }

  /**
   * The words mm_init leaves below and at heap_listp: the pad 0, and the
   * prologue's header and footer PACK(8, 1).
   */
  ghost predicate PrologueWords(h: Image, hp: int) {
    h.InRange(hp - DSIZE) && h.Get(hp - DSIZE) == 0 &&
    h.InRange(hp - WSIZE) && h.Get(hp - WSIZE) == Pack(DSIZE, 1) &&
    h.InRange(hp) && h.Get(hp) == Pack(DSIZE, 1)
  }

  /** A well-formed heap has the pad word and the prologue's header and footer below and at heap_listp. */
  lemma Sentinels(h: Image, hp: int, bs: seq<Block>)
    requires WellFormed(h, hp, bs)
    ensures PrologueWords(h, hp)
  {
    PastPrologue(h, hp, bs, 1);
    assert BlockAt(h, Start(hp, bs, 0), bs[0]);
  }

  /**
   * mm_init's four writes on a fresh 16-byte region at base: the pad, the
   * prologue's header and footer and the epilogue make a well-formed heap
   * holding only the prologue, with heap_listp at base + 8.
   */
  lemma InitWritten(h: Image, base: int, w0: map<int, Word>)
    requires base % DSIZE == 0 && h.lo <= base && h.hi == base + 4 * WSIZE
    requires h.words == w0[base := 0][base + WSIZE := Pack(DSIZE, 1)][base + 2 * WSIZE := Pack(DSIZE, 1)][base + 3 * WSIZE := Pack(0, 1)]
    ensures WellFormed(h, base + DSIZE, [Prologue])
  {
    var hp := base + DSIZE;
    assert [Prologue][..0] == [];
    assert BlockAt(h, Start(hp, [Prologue], 0), Prologue);
    assert [Prologue][..1] == [Prologue];
    SizeSumSingle(Prologue);
    assert Start(hp, [Prologue], 1) == h.hi;
  }

  /**
   * extend_heap's three writes on a region grown by size bytes: the free
   * block's header over the old epilogue, its footer, and the new epilogue in
   * the last word append one free block, at the old end, to a well-formed
   * heap.
   */
  lemma ExtendWritten(h: Image, w: map<int, Word>, hp: int, bs: seq<Block>, size: Word)
    requires WellFormed(h, hp, bs)
    requires size >= DSIZE && size % DSIZE == 0
    requires h.hi + size - DSIZE in h.words && h.hi + size - WSIZE in h.words
    requires w == h.words[h.hi - WSIZE := Pack(size, 0)][h.hi + size - DSIZE := Pack(size, 0)][h.hi + size - WSIZE := Pack(0, 1)]
    ensures WellFormed(Image(h.lo, h.hi + size, w), hp, bs + [Block(size, false)])
    ensures Start(hp, bs + [Block(size, false)], |bs|) == h.hi
    ensures KeepsBlocks(h, Image(h.lo, h.hi + size, w), Live(hp, bs))
  {
    var h3 := Image(h.lo, h.hi + size, w);
    LayoutEnd(h, hp, bs);
    LayoutSpan(h, hp, bs, 0, |bs|);
    PastPrologue(h, hp, bs, |bs|);
    assert forall p :: h.InRange(p) && p < h.hi - WSIZE ==> h3.InRange(p) && h3.Get(p) == h.Get(p);
    Append(h, h3, hp, bs, size);
    assert (bs + [Block(size, false)])[..|bs|] == bs == bs[..|bs|];
    KeptBlocks(h, h3, hp, bs, |bs|, |bs|, h.hi);
    assert LiveIn(hp, bs, |bs|, |bs|) == {};
  }

  /** A free block appended to a heap with no adjacent free blocks is the only one that may have a free neighbour. */
  lemma AppendedFree(bs: seq<Block>, size: nat)
    requires NoAdjacentFree(bs)
    ensures AdjacentFreeOnlyAt(bs + [Block(size, false)], |bs|)
  {
    var g := bs + [Block(size, false)];
    forall t | 0 <= t < |g| - 1 && t != |bs| && t + 1 != |bs|
      ensures g[t].isAlloc || g[t + 1].isAlloc
    {
      assert g[t] == bs[t] && g[t + 1] == bs[t + 1];
    }
  }

  /** The first extension of a heap holding only the prologue has no free block to merge with. */
  lemma FirstExtension()
    ensures Coalesced([Prologue] + [Block(CHUNKSIZE, false)], 1) == [Prologue, Block(CHUNKSIZE, false)]
  {
    var g := [Prologue] + [Block(CHUNKSIZE, false)];
    assert RunStart(g, 1) == 1 && RunEnd(g, 1) == 1;
    assert g[1..2] == [Block(CHUNKSIZE, false)];
    SizeSumSingle(Block(CHUNKSIZE, false));
  }

  /** Every block of a layout has a positive size. */
  lemma LayoutPositive(h: Image, bp0: int, bs: seq<Block>)
    requires Layout(h, bp0, bs)
    ensures PositiveSizes(bs)
  {
    forall t | 0 <= t < |bs|
      ensures bs[t].size > 0
    {
      assert BlockAt(h, Start(bp0, bs, t), bs[t]);
    }
  }

  /** Two blocks of a laid-out heap with the same payload pointer are the same block. */
  lemma PayloadUnique(h: Image, bp0: int, bs: seq<Block>, s: nat, t: nat)
    requires Layout(h, bp0, bs) && s < |bs| && t < |bs| && Start(bp0, bs, s) == Start(bp0, bs, t)
    ensures s == t
  {
    LayoutPositive(h, bp0, bs);
    if s < t {
      StartOrder(bp0, bs, s, t);
    } else if t < s {
      StartOrder(bp0, bs, t, s);
    }
  }

  /**
   * Block i >= 1 of a well-formed heap rewritten in place as the blocks mid,
   * which span it exactly, with no word outside it changed: the heap is
   * well-formed with block i replaced by mid.
   */
  lemma RewriteBlock(h: Image, h': Image, hp: int, bs: seq<Block>, i: nat, mid: seq<Block>)
    requires WellFormed(h, hp, bs)
    requires 1 <= i < |bs| && SizeSum(mid) == bs[i].size
    requires AgreeOutside(h, h', Start(hp, bs, i) - WSIZE, Start(hp, bs, i + 1) - WSIZE)
    requires Segment(h', Start(hp, bs, i), mid)
    ensures WellFormed(h', hp, bs[..i] + mid + bs[i + 1..])
  {
    assert bs[i..i + 1] == [bs[i]];
    SizeSumSingle(bs[i]);
    Replace(h, h', hp, bs, i, i + 1, mid);
    var l := bs[..i] + mid + bs[i + 1..];
    assert l[0] == bs[0];
    KeepsPrologue(h, h', hp, bs, l, i, Start(hp, bs, i + 1) - WSIZE);
  }

  // ---------------------------------------------------------------------
  // What an operation leaves alone
  // ---------------------------------------------------------------------

  /**
   * Every word of every block in L, from its header to its footer, reads the
   * same in h' as in h. L lists blocks as (payload, size) pairs.
   */
  ghost predicate KeepsBlocks(h: Image, h': Image, L: set<(int, nat)>) {
    forall x, p | x in L && x.0 - WSIZE <= p < x.0 + x.1 - WSIZE && h.InRange(p) ::
      h'.InRange(p) && h'.Get(p) == h.Get(p)
  }

  /** Every word-aligned address of the region holds a word. */
  ghost predicate Dense(h: Image) {
    forall p | h.lo <= p && p + WSIZE <= h.hi && (p - h.lo) % WSIZE == 0 :: p in h.words
  }

  /** h' holds the same words as h everywhere outside the addresses [from, to). */
  ghost predicate KeepsOutside(h: Image, h': Image, from: int, to: int) {
    forall p | h.InRange(p) && (p < from || to <= p) :: h'.InRange(p) && h'.Get(p) == h.Get(p)
  }

  /**
   * Changing no word outside [header of block k, to), where `to` is at most
   * the header of block e, keeps every allocated block outside k..e-1.
   */
  lemma KeptBlocks(h: Image, h': Image, bp0: int, bs: seq<Block>, k: nat, e: nat, to: int)
    requires k <= e <= |bs|
    requires e < |bs| ==> to <= Start(bp0, bs, e) - WSIZE
    requires KeepsOutside(h, h', Start(bp0, bs, k) - WSIZE, to)
    ensures KeepsBlocks(h, h', Live(bp0, bs) - LiveIn(bp0, bs, k, e))
  {
    forall x, p | x in Live(bp0, bs) - LiveIn(bp0, bs, k, e) && x.0 - WSIZE <= p < x.0 + x.1 - WSIZE && h.InRange(p)
      ensures h'.InRange(p) && h'.Get(p) == h.Get(p)
    {
      var t :| 0 <= t < |bs| && bs[t].isAlloc && x == (Start(bp0, bs, t), bs[t].size);
      if t < k {
        StartOrder(bp0, bs, t, k);
      } else {
        assert e <= t;
        StartMonotone(bp0, bs, e, t);
      }
    }
  }

  /** Two steps that each keep a superset of L keep L. */
  lemma KeepsBlocksChain(h1: Image, h2: Image, h3: Image, L1: set<(int, nat)>, L2: set<(int, nat)>, L: set<(int, nat)>)
    requires KeepsBlocks(h1, h2, L1) && KeepsBlocks(h2, h3, L2)
    requires L <= L1 && L <= L2
    ensures KeepsBlocks(h1, h3, L)
  {
    forall x, p | x in L && x.0 - WSIZE <= p < x.0 + x.1 - WSIZE && h1.InRange(p)
      ensures h3.InRange(p) && h3.Get(p) == h1.Get(p)
    {
      assert x in L1 && x in L2;
    }
  }

  // ---------------------------------------------------------------------
  // place and free on the words
  // ---------------------------------------------------------------------

  /** A block's tag written to its header and footer, inside the region, puts the block there and changes no other word. */
  lemma TagsWritten(h: Image, w: map<int, Word>, bp: int, b: Block)
    requires Fits(b) && h.lo <= bp - WSIZE && bp + b.size <= h.hi
    requires w == h.words[bp - WSIZE := Tag(b)][bp + b.size - DSIZE := Tag(b)]
    ensures BlockAt(Image(h.lo, h.hi, w), bp, b)
    ensures AgreeOutside(h, Image(h.lo, h.hi, w), bp - WSIZE, bp + b.size - WSIZE)
  {
  }

  /**
   * The header and footer of block i >= 1 rewritten with the tag of a block b
   * of the same size: block i becomes b, and every other allocated block is
   * kept.
   */
  lemma RetagWritten(h: Image, w: map<int, Word>, hp: int, bs: seq<Block>, i: nat, bp: int, b: Block, size: Word)
    requires WellFormed(h, hp, bs)
    requires 1 <= i < |bs| && bp == Start(hp, bs, i) && size == bs[i].size == b.size
    requires w == h.words[bp - WSIZE := Pack(size, Flag(b))][bp + size - DSIZE := Pack(size, Flag(b))]
    ensures WellFormed(Image(h.lo, h.hi, w), hp, bs[i := b])
    ensures KeepsBlocks(h, Image(h.lo, h.hi, w), Live(hp, bs) - LiveIn(hp, bs, i, i + 1))
  {
    var h' := Image(h.lo, h.hi, w);
    assert Fits(b) && h.lo <= bp - WSIZE && bp + b.size <= h.hi && Start(hp, bs, i + 1) == bp + size by {
      assert BlockAt(h, bp, bs[i]);
      LayoutNext(h, hp, bs, i);
      LayoutSpan(h, hp, bs, i, i + 1);
    }
    assert BlockAt(h', bp, b) && AgreeOutside(h, h', bp - WSIZE, Start(hp, bs, i + 1) - WSIZE) by {
      TagsWritten(h, w, bp, b);
    }
    assert WellFormed(h', hp, bs[i := b]) by {
      OneBlock(h', bp, b);
      SizeSumSingle(b);
      RewriteBlock(h, h', hp, bs, i, [b]);
      assert bs[..i] + [b] + bs[i + 1..] == bs[i := b];
    }
    KeptBlocks(h, h', hp, bs, i, i + 1, Start(hp, bs, i + 1) - WSIZE);
  }

  /**
   * place's two writes when free block i >= 1 of csize bytes is too small to
   * split: its header and footer marked allocated. The heap is well-formed
   * with block i placed, and every allocated block is kept.
   */
  lemma WholeWritten(h: Image, w: map<int, Word>, hp: int, bs: seq<Block>, i: nat, bp: int, asize: Word, csize: Word)
    requires WellFormed(h, hp, bs)
    requires 1 <= i < |bs| && bp == Start(hp, bs, i) && FitsRequest(bs[i], asize) && csize == bs[i].size
    requires csize - asize < MIN_BLOCK
    requires w == h.words[bp - WSIZE := Pack(csize, 1)][bp + csize - DSIZE := Pack(csize, 1)]
    ensures WellFormed(Image(h.lo, h.hi, w), hp, Placed(bs, i, asize))
    ensures KeepsBlocks(h, Image(h.lo, h.hi, w), Live(hp, bs))
  {
    RetagWritten(h, w, hp, bs, i, bp, Block(csize, true), csize);
    PlacedWhole(bs, i, asize);
    LiveInFree(hp, bs, i);
  }

  /**
   * The two blocks of a split, an allocated block of asize bytes at bp and a
   * free one of csize - asize bytes after it, written tag by tag: they lie
   * back to back from bp, and no word outside the split block changed.
   */
  lemma SplitTags(h: Image, w: map<int, Word>, bp: int, asize: Word, csize: Word)
    requires h.lo <= bp - WSIZE && bp + csize <= h.hi && csize < WORD_LIMIT
    requires asize >= DSIZE && asize % DSIZE == 0 && csize % DSIZE == 0 && csize - asize >= MIN_BLOCK
    requires w == h.words[bp - WSIZE := Pack(asize, 1)][bp + asize - DSIZE := Pack(asize, 1)]
                         [bp + asize - WSIZE := Pack(csize - asize, 0)][bp + csize - DSIZE := Pack(csize - asize, 0)]
    ensures Segment(Image(h.lo, h.hi, w), bp, PlacedBlocks(Block(csize, false), asize))
    ensures AgreeOutside(h, Image(h.lo, h.hi, w), bp - WSIZE, bp + csize - WSIZE)
  {
    var a := Block(asize, true);
    var f := Block(csize - asize, false);
    var w1 := h.words[bp - WSIZE := Pack(asize, 1)][bp + asize - DSIZE := Pack(asize, 1)];
    var h1 := Image(h.lo, h.hi, w1);
    var h2 := Image(h.lo, h.hi, w);
    assert Fits(a) && Fits(f) && Tag(a) == Pack(asize, 1) && Tag(f) == Pack(csize - asize, 0);
    TagsWritten(h, w1, bp, a);
    TagsWritten(h1, w, bp + asize, f);
    assert BlockAt(h2, bp, a) by {
      assert h2.Get(bp - WSIZE) == h1.Get(bp - WSIZE) && h2.Get(bp + asize - DSIZE) == h1.Get(bp + asize - DSIZE);
    }
    AgreeOutsideJoin(h, h1, h2, bp - WSIZE, bp + asize - WSIZE, bp + csize - WSIZE);
    var mid := PlacedBlocks(Block(csize, false), asize);
    assert mid == [a, f];
    assert Start(bp, mid, 0) == bp by {
      assert mid[..0] == [];
    }
    assert Start(bp, mid, 1) == bp + asize by {
      assert mid[..1] == [a];
      SizeSumSingle(a);
    }
  }

  /**
   * place's four writes when it splits free block i >= 1 of csize bytes: the
   * allocated block's header and footer, then the free remainder's header
   * and footer. The heap is well-formed with block i placed, and every
   * allocated block is kept.
   */
  lemma SplitWritten(h: Image, w: map<int, Word>, hp: int, bs: seq<Block>, i: nat, bp: int, asize: Word, csize: Word)
    requires WellFormed(h, hp, bs)
    requires 1 <= i < |bs| && bp == Start(hp, bs, i) && FitsRequest(bs[i], asize) && csize == bs[i].size
    requires asize >= DSIZE && asize % DSIZE == 0 && csize - asize >= MIN_BLOCK
    requires w == h.words[bp - WSIZE := Pack(asize, 1)][bp + asize - DSIZE := Pack(asize, 1)]
                         [bp + asize - WSIZE := Pack(csize - asize, 0)][bp + csize - DSIZE := Pack(csize - asize, 0)]
    ensures WellFormed(Image(h.lo, h.hi, w), hp, Placed(bs, i, asize))
    ensures KeepsBlocks(h, Image(h.lo, h.hi, w), Live(hp, bs))
  {
    var h' := Image(h.lo, h.hi, w);
    assert BlockAt(h, bp, bs[i]);
    LayoutNext(h, hp, bs, i);
    LayoutSpan(h, hp, bs, i, i + 1);
    assert bs[i] == Block(csize, false);
    SplitTags(h, w, bp, asize, csize);
    assert WellFormed(h', hp, Placed(bs, i, asize)) by {
      PlacedBlocksSize(bs[i], asize);
      RewriteBlock(h, h', hp, bs, i, PlacedBlocks(bs[i], asize));
      PlacedShape(bs, i, asize);
    }
    assert KeepsBlocks(h, h', Live(hp, bs)) by {
      KeptBlocks(h, h', hp, bs, i, i + 1, Start(hp, bs, i + 1) - WSIZE);
      assert LiveIn(hp, bs, i, i + 1) == {};
    }
  }

  /** Block i of a well-formed heap lies inside the region, double-word aligned, with a fitting size. */
  lemma BlockSpan(h: Image, hp: int, bs: seq<Block>, i: nat)
    requires WellFormed(h, hp, bs) && i < |bs| && h.lo % DSIZE == 0
    ensures var bp := Start(hp, bs, i);
      h.lo <= bp - WSIZE && bp + bs[i].size <= h.hi && (bp - h.lo) % DSIZE == 0 && Fits(bs[i]) &&
      Start(hp, bs, i + 1) == bp + bs[i].size
  {
    StartNext(hp, bs, i);
    LayoutHeader(h, hp, bs, i);
    LayoutAligned(h, hp, bs, i);
    LayoutSpan(h, hp, bs, i, i + 1);
  }

  /** The len bytes from dst hold, word by word, what h0 held at the same offsets from src. */
  ghost predicate CopiedWords(h0: Image, h: Image, dst: int, src: int, len: int) {
    forall p | dst <= p < dst + len && (p - dst) % WSIZE == 0 :: CopiedAt(h0, h, dst, src, p)
  }

  /** The word at p holds what h0 held at the same offset from src. */
  ghost predicate CopiedAt(h0: Image, h: Image, dst: int, src: int, p: int) {
    h.InRange(p) && h0.InRange(src + (p - dst)) && h.Get(p) == h0.Get(src + (p - dst))
  }

  /**
   * One step of the copy loop: word m of the source, read where the loop has
   * not yet written, stored into the payload of block d at offset 4 * m.
   */
  lemma CopyStep(h0: Image, h: Image, h': Image, dst: int, src: int, m: nat, v: Word)
    requires h.lo == h0.lo && h.hi == h0.hi && h.InRange(dst + WSIZE * m)
    requires src + WSIZE * m < dst || dst + WSIZE * m <= src
    requires h0.InRange(src + WSIZE * m) && h.InRange(src + WSIZE * m) && v == h.Get(src + WSIZE * m)
    requires CopiedWords(h0, h, dst, src, WSIZE * m) && KeepsOutside(h0, h, dst, dst + WSIZE * m)
    requires h'.lo == h.lo && h'.hi == h.hi && h'.words == h.words[dst + WSIZE * m := v]
    ensures CopiedWords(h0, h', dst, src, WSIZE * (m + 1))
    ensures KeepsOutside(h0, h', dst, dst + WSIZE * (m + 1))
  {
    var q := dst + WSIZE * m;
    assert v == h0.Get(src + WSIZE * m);
    forall p | dst <= p < dst + WSIZE * (m + 1) && (p - dst) % WSIZE == 0
      ensures CopiedAt(h0, h', dst, src, p)
    {
      if p != q {
        assert dst <= p < dst + WSIZE * m;
        assert CopiedAt(h0, h, dst, src, p);
      }
    }
  }

  /**
   * After a successful allocation, the block ptr still allocated (block i
   * before, block j after) and the newly granted block newp (block d) are
   * two different user blocks, one wholly before the other.
   */
  lemma GrantedIndices(h0: Image, h: Image, hp: int, before: seq<Block>, after: seq<Block>, i: nat, ptr: int, newp: int, asize: int)
    returns (j: nat, d: nat)
    requires WellFormed(h0, hp, before) && 0 < i < |before| && before[i].isAlloc && ptr == Start(hp, before, i)
    requires WellFormed(h, hp, after) && Granted(h, hp, before, after, newp, asize)
    ensures 0 < j < |after| && after[j] == before[i] && ptr == Start(hp, after, j)
    ensures 0 < d < |after| && after[d].isAlloc && newp == Start(hp, after, d) && after[d].size == GetSize(h, Hdrp(newp))
    ensures j != d
    ensures d < j ==> newp + after[d].size <= ptr
    ensures j < d ==> ptr + after[j].size <= newp
  {
    var x := (ptr, before[i].size);
    var y := (newp, GetSize(h, Hdrp(newp)));
    assert x in Live(hp, before);
    assert x in Live(hp, after);
    assert y in Live(hp, after);
    j :| 0 <= j < |after| && after[j].isAlloc && x == (Start(hp, after, j), after[j].size);
    d :| 0 <= d < |after| && after[d].isAlloc && y == (Start(hp, after, d), after[d].size);
    assert Start(hp, before, 0) == hp && Start(hp, after, 0) == hp by {
      assert before[..0] == [] && after[..0] == [];
    }
    LayoutPositive(h0, hp, before);
    StartOrder(hp, before, 0, i);
    assert (hp, DSIZE) in Live(hp, before);
    if d < j {
      StartOrder(hp, after, d, j);
    } else if j < d {
      StartOrder(hp, after, j, d);
    }
  }

  /**
   * The bookkeeping of mm_realloc once malloc has granted block d at newp:
   * the copy of len bytes into its payload, then the free of block j at ptr.
   * The allocated blocks are those before, but ptr's, plus newp's; every one
   * allocated before but ptr's is kept; newp's header is the one malloc
   * wrote; and the copied words hold what ptr's block held before at the
   * same offsets, up to its footer.
   */
  lemma ReallocFrame(h0: Image, h1: Image, h2: Image, h3: Image, hp: int,
                     bs0: seq<Block>, bs1: seq<Block>, bs3: seq<Block>,
                     i: nat, j: nat, d: nat, ptr: int, newp: int, asize: int, len: nat)
    requires WellFormed(h0, hp, bs0) && 0 < i < |bs0| && bs0[i].isAlloc && ptr == Start(hp, bs0, i)
    requires Dense(h0) && h0.lo % DSIZE == 0 && h1.lo == h0.lo
    requires WellFormed(h1, hp, bs1) && Granted(h1, hp, bs0, bs1, newp, asize)
    requires 0 < j < |bs1| && bs1[j] == bs0[i] && ptr == Start(hp, bs1, j)
    requires 0 < d < |bs1| && bs1[d].isAlloc && newp == Start(hp, bs1, d) && bs1[d].size == GetSize(h1, Hdrp(newp))
    requires j != d
    requires KeepsBlocks(h0, h1, Live(hp, bs0))
    requires h2.lo == h1.lo && h2.hi == h1.hi && newp + len <= Start(hp, bs1, d + 1) - DSIZE
    requires KeepsOutside(h1, h2, newp, newp + len) && CopiedWords(h1, h2, newp, ptr, len)
    requires Live(hp, bs3) == Live(hp, bs1) - {(ptr, bs1[j].size)}
    requires KeepsBlocks(h2, h3, Live(hp, bs3))
    ensures var x := (ptr, bs0[i].size);
      var y := (newp, GetSize(h1, Hdrp(newp)));
      Live(hp, bs3) == Live(hp, bs0) - {x} + {y} && y in Live(hp, bs3) &&
      KeepsBlocks(h0, h3, Live(hp, bs0) - {x})
    ensures h3.InRange(Hdrp(newp)) && GetSize(h3, Hdrp(newp)) == GetSize(h1, Hdrp(newp))
    ensures CopiedWords(h0, h3, newp, ptr, Min(len, bs0[i].size - WSIZE))
  {
    var x: (int, nat) := (ptr, bs0[i].size);
    var y: (int, nat) := (newp, GetSize(h1, Hdrp(newp)));
    var L0, L1, L3 := Live(hp, bs0), Live(hp, bs1), Live(hp, bs3);
    assert x in L0 && y in L1;
    SwapLive(L0, L1, L3, x, y);
    KeepsOne(h0, h1, L0, x);
    KeepsOne(h2, h3, L3, y);
    ReallocCopied(h0, h1, h2, h3, hp, bs0, bs1, i, d, ptr, newp, len);
    assert KeepsBlocks(h0, h3, L0 - {x}) by {
      CopyKeeps(h1, h2, hp, bs1, d, len);
      KeepsBlocksChain(h0, h1, h2, L0, L1 - {y}, L0 - {x});
      KeepsBlocksChain(h0, h2, h3, L0 - {x}, L3, L0 - {x});
    }
  }

  /**
   * The state mm_realloc reaches once malloc has granted newp (block d)
   * while ptr's block i is still allocated, as block j.
   */
  ghost predicate Regranted(h0: Image, h1: Image, hp: int, bs0: seq<Block>, bs1: seq<Block>,
                            i: nat, j: nat, d: nat, ptr: int, newp: int, asize: int) {
    WellFormed(h0, hp, bs0) && 0 < i < |bs0| && bs0[i].isAlloc && ptr == Start(hp, bs0, i) &&
    Dense(h0) && h0.lo % DSIZE == 0 && h1.lo == h0.lo &&
    WellFormed(h1, hp, bs1) && Granted(h1, hp, bs0, bs1, newp, asize) &&
    0 < j < |bs1| && bs1[j] == bs0[i] && ptr == Start(hp, bs1, j) &&
    0 < d < |bs1| && bs1[d].isAlloc && newp == Start(hp, bs1, d) && bs1[d].size == GetSize(h1, Hdrp(newp)) &&
    j != d && KeepsBlocks(h0, h1, Live(hp, bs0))
  }

  /** ReallocFrame, stated as what a completed mm_realloc leaves. */
  lemma ReallocDone(h0: Image, h1: Image, h2: Image, h3: Image, hp: int,
                    bs0: seq<Block>, bs1: seq<Block>, bs3: seq<Block>,
                    i: nat, j: nat, d: nat, ptr: int, newp: int, size: Word, oldSize: Word, len: nat)
    requires Regranted(h0, h1, hp, bs0, bs1, i, j, d, ptr, newp, AdjustedSize(size))
    requires oldSize == bs0[i].size && len == CopiedBytes(oldSize, size)
    requires h2.lo == h1.lo && h2.hi == h1.hi && newp + len <= Start(hp, bs1, d + 1) - DSIZE
    requires KeepsOutside(h1, h2, newp, newp + len) && CopiedWords(h1, h2, newp, ptr, len)
    requires Live(hp, bs3) == Live(hp, bs1) - {(ptr, bs1[j].size)}
    requires KeepsBlocks(h2, h3, Live(hp, bs3))
    ensures Reallocated(h0, h3, hp, bs0, bs3, ptr, oldSize, newp, size)
    ensures KeepsBlocks(h0, h3, Live(hp, bs0) - {(ptr, oldSize)})
  {
    ReallocFrame(h0, h1, h2, h3, hp, bs0, bs1, bs3, i, j, d, ptr, newp, AdjustedSize(size), len);
  }

  /** What keeps every block of L keeps every block of a part of L. */
  lemma KeepsBlocksSubset(h: Image, h': Image, L: set<(int, nat)>, L': set<(int, nat)>)
    requires KeepsBlocks(h, h', L) && L' <= L
    ensures KeepsBlocks(h, h', L')
  {
  }

  /** Trading x for y: the sets before and after, and what is kept throughout. */
  lemma SwapLive<T>(L0: set<T>, L1: set<T>, L3: set<T>, x: T, y: T)
    requires x in L0 && y !in L0 && L1 == L0 + {y} && L3 == L1 - {x}
    ensures L3 == L0 - {x} + {y} && y in L3 && L0 - {x} <= L1 - {y}
  {
  }

  /**
   * The copied words of mm_realloc survive the free that follows: block i at
   * ptr, kept from h0 to h1, was copied into block d at newp between h1 and
   * h2, and block d is kept from h2 to h3.
   */
  lemma ReallocCopied(h0: Image, h1: Image, h2: Image, h3: Image, hp: int, bs0: seq<Block>, bs1: seq<Block>,
                      i: nat, d: nat, ptr: int, newp: int, len: nat)
    requires WellFormed(h0, hp, bs0) && i < |bs0| && ptr == Start(hp, bs0, i) && Dense(h0) && h0.lo % DSIZE == 0
    requires WellFormed(h1, hp, bs1) && d < |bs1| && newp == Start(hp, bs1, d) && h1.lo == h0.lo
    requires newp + len <= Start(hp, bs1, d + 1) - DSIZE
    requires KeepsBlock(h0, h1, (ptr, bs0[i].size)) && KeepsBlock(h2, h3, (newp, bs1[d].size))
    requires KeepsOutside(h1, h2, newp, newp + len) && CopiedWords(h1, h2, newp, ptr, len)
    ensures h3.InRange(Hdrp(newp)) && h3.Get(Hdrp(newp)) == h1.Get(Hdrp(newp))
    ensures CopiedWords(h0, h3, newp, ptr, Min(len, bs0[i].size - WSIZE))
  {
    BlockSpan(h0, hp, bs0, i);
    BlockSpan(h1, hp, bs1, d);
    CopyStays(h0, h1, h2, h3, (ptr, bs0[i].size), (newp, bs1[d].size), newp, ptr, len);
  }

  /** The copy into block d's payload keeps every other allocated block. */
  lemma CopyKeeps(h1: Image, h2: Image, hp: int, bs1: seq<Block>, d: nat, len: nat)
    requires WellFormed(h1, hp, bs1) && 0 < d < |bs1| && bs1[d].isAlloc
    requires Start(hp, bs1, d) + len <= Start(hp, bs1, d + 1) - DSIZE
    requires KeepsOutside(h1, h2, Start(hp, bs1, d), Start(hp, bs1, d) + len)
    ensures KeepsBlocks(h1, h2, Live(hp, bs1) - {(Start(hp, bs1, d), bs1[d].size)})
  {
    LayoutSpan(h1, hp, bs1, d, d + 1);
    KeptBlocks(h1, h2, hp, bs1, d, d + 1, Start(hp, bs1, d + 1) - WSIZE);
    assert LiveIn(hp, bs1, d, d + 1) == {(Start(hp, bs1, d), bs1[d].size)};
  }

  /**
   * The copied words survive: ptr's block x is kept from h0 to h1, the copy
   * from h1 to h2 lands in newp's block y, which is kept from h2 to h3.
   */
  lemma CopyStays(h0: Image, h1: Image, h2: Image, h3: Image, x: (int, nat), y: (int, nat), newp: int, ptr: int, len: nat)
    requires x.0 == ptr && y.0 == newp && len <= y.1 - DSIZE
    requires Dense(h0) && h0.lo <= ptr && ptr + x.1 - WSIZE <= h0.hi && (ptr - h0.lo) % DSIZE == 0 && x.1 % DSIZE == 0
    requires h1.InRange(Hdrp(newp))
    requires KeepsBlock(h0, h1, x) && KeepsBlock(h2, h3, y)
    requires KeepsOutside(h1, h2, newp, newp + len) && CopiedWords(h1, h2, newp, ptr, len)
    ensures h3.InRange(Hdrp(newp)) && h3.Get(Hdrp(newp)) == h1.Get(Hdrp(newp))
    ensures CopiedWords(h0, h3, newp, ptr, Min(len, x.1 - WSIZE))
  {
    assert h2.InRange(Hdrp(newp)) && h2.Get(Hdrp(newp)) == h1.Get(Hdrp(newp));
    DoubleWordAligned(ptr - h0.lo);
    DoubleWordAligned(x.1);
    var n := Min(len, x.1 - WSIZE);
    forall p | newp <= p < newp + n && (p - newp) % WSIZE == 0
      ensures CopiedAt(h0, h3, newp, ptr, p)
    {
      CopyStaysAt(h0, h1, h2, h3, x, y, newp, ptr, len, p);
    }
  }

  /** CopyStays for the word at p. */
  lemma CopyStaysAt(h0: Image, h1: Image, h2: Image, h3: Image, x: (int, nat), y: (int, nat), newp: int, ptr: int, len: nat, p: int)
    requires x.0 == ptr && y.0 == newp && len <= y.1 - DSIZE
    requires Dense(h0) && h0.lo <= ptr && ptr + x.1 - WSIZE <= h0.hi && (ptr - h0.lo) % WSIZE == 0 && x.1 % WSIZE == 0
    requires KeepsBlock(h0, h1, x) && KeepsBlock(h2, h3, y)
    requires CopiedWords(h1, h2, newp, ptr, len)
    requires newp <= p < newp + len && p < newp + x.1 - WSIZE && (p - newp) % WSIZE == 0
    ensures CopiedAt(h0, h3, newp, ptr, p)
  {
    var q := ptr + (p - newp);
    assert h0.InRange(q) by {
      WordsApart(ptr - h0.lo, p - newp);
      WordsApart(p - newp, x.1 - WSIZE);
      assert q - h0.lo == (ptr - h0.lo) + (p - newp);
      assert q + WSIZE <= h0.hi;
    }
    assert h1.InRange(q) && h1.Get(q) == h0.Get(q);
    assert CopiedAt(h1, h2, newp, ptr, p);
    assert h3.InRange(p) && h3.Get(p) == h2.Get(p);
  }

  /** Every word of block x, from its header to its footer, reads the same in h' as in h. */
  ghost predicate KeepsBlock(h: Image, h': Image, x: (int, nat)) {
    forall p | x.0 - WSIZE <= p < x.0 + x.1 - WSIZE && h.InRange(p) :: h'.InRange(p) && h'.Get(p) == h.Get(p)
  }

  /** What keeps every block of L keeps each one of them. */
  lemma KeepsOne(h: Image, h': Image, L: set<(int, nat)>, x: (int, nat))
    requires KeepsBlocks(h, h', L) && x in L
    ensures KeepsBlock(h, h', x)
  {
  }

  /**
   * Freeing allocated block i and then coalescing: the allocated blocks are
   * those before but block i, and each of them is kept across both steps.
   */
  lemma FreeFrame(h: Image, mid: Image, h3: Image, hp: int, bs: seq<Block>, i: nat)
    requires Layout(h, hp, bs) && i < |bs| && bs[i].isAlloc
    requires KeepsBlocks(h, mid, Live(hp, bs) - {(Start(hp, bs, i), bs[i].size)})
    requires KeepsBlocks(mid, h3, Live(hp, Freed(bs, i)))
    ensures Live(hp, Coalesced(Freed(bs, i), i)) == Live(hp, bs) - {(Start(hp, bs, i), bs[i].size)}
    ensures KeepsBlocks(h, h3, Live(hp, Coalesced(Freed(bs, i), i)))
  {
    var x := (Start(hp, bs, i), bs[i].size);
    LayoutPositive(h, hp, bs);
    FreedLive(hp, bs, i);
    FreeLive(hp, bs, i);
    KeepsBlocksChain(h, mid, h3, Live(hp, bs) - {x}, Live(hp, Freed(bs, i)), Live(hp, Coalesced(Freed(bs, i), i)));
  }

  /**
   * Writes that change no word outside [from, to), a range inside the
   * payload of user block d clear of its footer, keep the heap well formed.
   */
  lemma PayloadWritten(h: Image, h': Image, hp: int, bs: seq<Block>, d: nat, from: int, to: int)
    requires WellFormed(h, hp, bs)
    requires 1 <= d < |bs|
    requires Start(hp, bs, d) <= from && to <= Start(hp, bs, d + 1) - DSIZE
    requires h'.lo == h.lo && h'.hi == h.hi && h.words.Keys <= h'.words.Keys
    requires KeepsOutside(h, h', from, to)
    ensures WellFormed(h', hp, bs)
  {
    var bp := Start(hp, bs, d);
    assert BlockAt(h, bp, bs[d]);
    LayoutNext(h, hp, bs, d);
    LayoutSpan(h, hp, bs, d, d + 1);
    assert BlockAt(h', bp, bs[d]);
    OneBlock(h', bp, bs[d]);
    SizeSumSingle(bs[d]);
    assert AgreeOutside(h, h', bp - WSIZE, Start(hp, bs, d + 1) - WSIZE);
    RewriteBlock(h, h', hp, bs, d, [bs[d]]);
    assert bs[..d] + [bs[d]] + bs[d + 1..] == bs;
  }

  /** mm_malloc's adjusted block size: the payload plus header and footer, rounded up to a double word, at least a minimum block. */
  function AdjustedSize(size: Word): (asize: nat)
    ensures asize % DSIZE == 0 && asize >= MIN_BLOCK && asize >= size + OVERHEAD
    ensures asize == MIN_BLOCK || asize < size + OVERHEAD + DSIZE
  {
    if size <= DSIZE then 2 * DSIZE else DSIZE * ((size + OVERHEAD + (DSIZE - 1)) / DSIZE)
  }

  /**
   * What a successful allocation for a block of asize bytes hands out: the
   * double-word aligned payload bp of a block whose header gives at least
   * asize bytes, and less than a minimum block more; the block was not
   * allocated before and is the one allocated block added.
   */
  ghost predicate Granted(h: Image, hp: int, before: seq<Block>, after: seq<Block>, bp: int, asize: int) {
    h.InRange(Hdrp(bp)) && bp % DSIZE == 0 &&
    asize <= GetSize(h, Hdrp(bp)) < asize + MIN_BLOCK &&
    (bp, GetSize(h, Hdrp(bp))) !in Live(hp, before) &&
    Live(hp, after) == Live(hp, before) + {(bp, GetSize(h, Hdrp(bp)))}
  }

  /** Placing asize bytes in free block i of a layout grants the block at i's payload. */
  lemma PlaceGrants(h: Image, h': Image, hp: int, bs: seq<Block>, i: nat, asize: nat)
    requires Layout(h, hp, bs) && i < |bs| && FitsRequest(bs[i], asize) && asize % DSIZE == 0
    requires Layout(h', hp, Placed(bs, i, asize))
    ensures Granted(h', hp, bs, Placed(bs, i, asize), Start(hp, bs, i), asize)
  {
    var p := Placed(bs, i, asize);
    LayoutHeader(h, hp, bs, i);
    PlacedShape(bs, i, asize);
    assert Start(hp, p, i) == Start(hp, bs, i);
    LayoutHeader(h', hp, p, i);
    LayoutAligned(h', hp, p, i);
    LayoutPositive(h, hp, bs);
    FreeNotLive(hp, bs, i, p[i].size);
    PlacedLive(hp, bs, i, asize);
  }

  /**
   * Where mm_realloc's memcpy of len bytes lands: inside the payload of
   * newp's block d, clear of its footer, and read from inside the region at
   * ptr's block j, the two ranges apart, when len fits both blocks.
   */
  lemma CopyRoom(h: Image, hp: int, bs: seq<Block>, j: nat, d: nat, ptr: int, newp: int, len: nat)
    requires WellFormed(h, hp, bs) && h.lo % DSIZE == 0
    requires 0 < j < |bs| && ptr == Start(hp, bs, j) && len <= bs[j].size
    requires 0 < d < |bs| && newp == Start(hp, bs, d) && len <= bs[d].size - DSIZE
    requires d < j ==> newp + bs[d].size <= ptr
    requires j < d ==> ptr + bs[j].size <= newp
    requires j != d
    ensures newp + len <= Start(hp, bs, d + 1) - DSIZE
    ensures h.lo <= ptr && ptr + len <= h.hi && (ptr - h.lo) % WSIZE == 0
    ensures ptr + len <= newp || newp + len <= ptr
  {
    assert h.lo <= ptr && ptr + bs[j].size <= h.hi && (ptr - h.lo) % WSIZE == 0 by {
      BlockSpan(h, hp, bs, j);
      DoubleWordAligned(ptr - h.lo);
    }
    BlockSpan(h, hp, bs, d);
  }

  /**
   * copySize bytes counted in whole words, n = (copySize + 3) / 4, make
   * CopiedBytes, which fits both ptr's block and the payload of a block
   * holding the adjusted size.
   */
  lemma CopyCount(blockSize: Word, size: Word, newSize: int, n: int)
    requires blockSize % DSIZE == 0 && newSize % DSIZE == 0 && AdjustedSize(size) <= newSize
    requires n == (CopyLength(blockSize, size) + WSIZE - 1) / WSIZE
    ensures WSIZE * n == CopiedBytes(blockSize, size)
    ensures CopiedBytes(blockSize, size) <= newSize - DSIZE && CopiedBytes(blockSize, size) <= blockSize
  {
    assert (newSize - DSIZE) % WSIZE == 0 by {
      AlignedSum(newSize, 0);
    }
    DoubleWordAligned(blockSize);
    CopyFits(blockSize, size, newSize - DSIZE);
    CopyFits(blockSize, size, blockSize);
  }

  /**
   * mm_realloc's memcpy(newp, ptr, copySize) in n whole words: n words make
   * CopiedBytes, and they fit the payload of newp's block d and lie inside
   * the region at ptr's block j, the two ranges apart.
   */
  lemma CopyPlan(h: Image, hp: int, bs: seq<Block>, j: nat, d: nat, ptr: int, newp: int, size: Word, copySize: Word, n: int)
    requires WellFormed(h, hp, bs) && h.lo % DSIZE == 0 && j != d
    requires 0 < j < |bs| && ptr == Start(hp, bs, j)
    requires 0 < d < |bs| && newp == Start(hp, bs, d) && AdjustedSize(size) <= bs[d].size
    requires d < j ==> newp + bs[d].size <= ptr
    requires j < d ==> ptr + bs[j].size <= newp
    requires h.InRange(Hdrp(ptr)) && copySize == CopyLength(GetSize(h, Hdrp(ptr)), size)
    requires n == (copySize + WSIZE - 1) / WSIZE
    ensures WSIZE * n == CopiedBytes(GetSize(h, Hdrp(ptr)), size)
    ensures newp + WSIZE * n <= Start(hp, bs, d + 1) - DSIZE
    ensures h.lo <= ptr && ptr + WSIZE * n <= h.hi && (ptr - h.lo) % WSIZE == 0
    ensures ptr + WSIZE * n <= newp || newp + WSIZE * n <= ptr
  {
    var len := CopiedBytes(GetSize(h, Hdrp(ptr)), size);
    assert GetSize(h, Hdrp(ptr)) == bs[j].size && bs[j].size % DSIZE == 0 && bs[d].size % DSIZE == 0 by {
      LayoutHeader(h, hp, bs, j);
      LayoutHeader(h, hp, bs, d);
    }
    CopyCount(GetSize(h, Hdrp(ptr)), size, bs[d].size, n);
    CopyRoom(h, hp, bs, j, d, ptr, newp, len);
  }

  /**
   * What a completed mm_realloc(ptr, size) leaves, ptr's block having held
   * oldSize bytes: newp is the double-word aligned payload of a block that
   * fits the adjusted size, newly allocated in place of ptr's; its payload
   * holds the first copySize bytes of ptr's block (whole words, up to ptr's
   * footer) as they were before the call.
   */
  ghost predicate Reallocated(h0: Image, h: Image, hp: int, before: seq<Block>, after: seq<Block>,
                              ptr: int, oldSize: Word, newp: int, size: Word) {
    h.InRange(Hdrp(newp)) && newp % DSIZE == 0 &&
    var s := GetSize(h, Hdrp(newp));
    AdjustedSize(size) <= s < AdjustedSize(size) + MIN_BLOCK &&
    (newp, s) !in Live(hp, before) &&
    Live(hp, after) == Live(hp, before) - {(ptr, oldSize)} + {(newp, s)} &&
    CopiedWords(h0, h, newp, ptr, Min(CopiedBytes(oldSize, size), oldSize - WSIZE))
  }

  /** mm_realloc's copySize: the size in ptr's header, or the requested size when that is smaller. */
  function CopyLength(blockSize: Word, size: Word): (n: Word)
    ensures n <= blockSize && n <= size
    ensures n == blockSize || n == size
  {
    if size < blockSize then size else blockSize
  }

  /**
   * The bytes memcpy(newp, ptr, copySize) writes, counted in whole words:
   * copySize rounded up to a word.
   */
  function CopiedBytes(blockSize: Word, size: Word): (len: nat)
    ensures len % WSIZE == 0 && CopyLength(blockSize, size) <= len < CopyLength(blockSize, size) + WSIZE
  {
    WSIZE * ((CopyLength(blockSize, size) + WSIZE - 1) / WSIZE)
  }

  /** A copy of at most room bytes, rounded up to a word, still fits a word-aligned room. */
  lemma CopyFits(blockSize: Word, size: Word, room: int)
    requires CopyLength(blockSize, size) <= room && room % WSIZE == 0
    ensures CopiedBytes(blockSize, size) <= room
  {
  }

  /**
   * `w | 0`, the value mm_free stores back into the header, is PACK(w, 0)
   * (`w | (0 & 1)`), and equals w: ORing in zero changes no bit.
   */
  lemma OrZeroKeepsHeader(w: Word)
    ensures Pack(w, 0) == w && AllocOf(Pack(w, 0)) == AllocOf(w)
  {
  }

  /** The header of an allocated 24-byte block still reads allocated after mm_free's write. */
  lemma FreeAsWrittenExample()
    ensures AllocOf(Pack(Pack(24, 1), 0)) == 1
  {
    OrZeroKeepsHeader(Pack(24, 1));
  }

  /**
   * extend_heap's rule for root, seen across a call that may extend the
   * heap: root becomes heap_listp + DSIZE when it was NULL and the break
   * moved, and is otherwise unchanged.
   */
  ghost predicate RootSet(root0: int, brk0: int, root1: int, brk1: int, hp: int) {
    root1 == if root0 == NULL && brk1 != brk0 then hp + DSIZE else root0
  }

  class MemoryManager {
    /** First byte of the region (mem_start_brk). */
    const lo: int
    /** Number of words the region can grow to (MAX_HEAP / 4). */
    const capacity: nat
    /** The storage: the word at each word-aligned address up to the capacity. */
    var words: map<int, Word>
    /** First byte past the region (mem_brk). */
    var brk: int
    /** heap_listp: the prologue's payload pointer once mm_init has succeeded. */
    var heapListp: int
    /** root, as mm_init and extend_heap set it. */
    var root: int
    /** The blocks between the prologue (included) and the epilogue. */
    ghost var blocks: seq<Block>

    /** Every word the region can grow over is stored, and every size in it fits a tag word. */
    ghost predicate Valid()
      reads this`brk, this`words
    {
      0 < lo && lo % DSIZE == 0 && 4 * capacity < WORD_LIMIT &&
      lo <= brk <= lo + 4 * capacity && (brk - lo) % DSIZE == 0 &&
      forall p :: lo <= p && p + WSIZE <= lo + 4 * capacity && (p - lo) % WSIZE == 0 ==> p in words
    }

    /** The words of the region [lo, brk), by address. */
    function Img(): (h: Image)
      reads this`brk, this`words
      ensures h.lo == lo && h.hi == brk
    {
      Image(lo, brk, words)
    }

    /** The heap is laid out as `blocks` says and no two neighbouring blocks are both free. */
    ghost predicate Ready()
      reads this`brk, this`words, this`heapListp, this`blocks
    {
      Valid() && WellFormed(Img(), heapListp, blocks) && NoAdjacentFree(blocks)
    }

    /**
     * An empty region of `capacity` words at address `start` over storage
     * whose words hold whatever `initial` says (the storage is not cleared).
     */
    constructor (start: int, capacity: nat, initial: map<int, Word>)
      requires 0 < start && start % DSIZE == 0 && 4 * capacity < WORD_LIMIT
      requires forall p :: start <= p && p + WSIZE <= start + 4 * capacity && (p - start) % WSIZE == 0 ==> p in initial
      ensures Valid()
      ensures lo == start && this.capacity == capacity && brk == start && words == initial
      ensures heapListp == NULL && root == NULL && blocks == []
    {
      lo := start;
      this.capacity := capacity;
      words := initial;
      brk := start;
      heapListp := NULL;
      root := NULL;
      blocks := [];
    }

    /**
     * mem_sbrk(incr): grows the region by incr bytes and returns the old
     * break, or returns (void *) -1 and leaves the region alone when incr is
     * negative or the region would outgrow its storage.
     */
    method MemSbrk(incr: int) returns (p: int)
      requires Valid() && incr % DSIZE == 0
      modifies this`brk
      ensures Valid()
      ensures incr < 0 || old(brk) + incr > lo + 4 * capacity ==> p == SBRK_FAILED && brk == old(brk)
      ensures 0 <= incr && old(brk) + incr <= lo + 4 * capacity ==> p == old(brk) && brk == old(brk) + incr
    {
      if incr < 0 || brk + incr > lo + 4 * capacity {
        return SBRK_FAILED;
      }
      p := brk;
      brk := brk + incr;
    }

    /**
     * INTENT of coalesce (boundary-tag coalescing): walks back from free
     * block bp while the previous block is free, walks forward while the next
     * block is free, and writes one free block over the whole run; returns the
     * run's first payload. The source computes the size from the addresses
     * of two locals, tests the allocated bit at the payload instead of the
     * header and walks forward with PREV_BLKP; here the size is the span of
     * the run, the bit is read from the header and the forward walk uses
     * NEXT_BLKP.
     */
    method Coalesce(bp: int, ghost i: nat) returns (r: int)
      requires Valid() && WellFormed(Img(), heapListp, blocks)
      requires 0 < i < |blocks| && !blocks[i].isAlloc && bp == Start(heapListp, blocks, i)
      requires AdjacentFreeOnlyAt(blocks, i)
      modifies this`blocks, this`words
      ensures Ready()
      ensures blocks == Coalesced(old(blocks), i)
      ensures r == Start(heapListp, blocks, RunStart(old(blocks), i))
      ensures KeepsBlocks(old(Img()), Img(), Live(heapListp, old(blocks)))
    {
      var h := Img();
      ghost var hp, bs := heapListp, blocks;
      var backLimit, frontLimit, size, k, j := CoalesceWalks(h, bp, hp, bs, i);
      r := backLimit;
      WriteRun(backLimit, frontLimit, size, i, k, j);
      assert hp == heapListp;
      assert bs == old(blocks);
      assert k == RunStart(old(blocks), i);
    }

    /**
     * The writing half of coalesce: the free run k..j around block i, whose
     * first and last payloads the walks found, becomes one free block.
     */
    method WriteRun(backLimit: int, frontLimit: int, size: Word, ghost i: nat, ghost k: nat, ghost j: nat)
      requires Valid() && WellFormed(Img(), heapListp, blocks)
      requires 0 < i < |blocks| && !blocks[i].isAlloc && AdjacentFreeOnlyAt(blocks, i)
      requires k == RunStart(blocks, i) && 1 <= k && j == RunEnd(blocks, i)
      requires backLimit == Start(heapListp, blocks, k) && frontLimit == Start(heapListp, blocks, j)
      requires size == Start(heapListp, blocks, j + 1) - backLimit
      modifies this`words, this`blocks
      ensures Ready() && blocks == Coalesced(old(blocks), i)
      ensures Start(heapListp, blocks, k) == backLimit
      ensures KeepsBlocks(old(Img()), Img(), Live(heapListp, old(blocks)))
    {
      PutRunTags(backLimit, frontLimit, size, i, k, j);
      blocks := Coalesced(blocks, i);
    }

    /**
     * coalesce's two writes: the run's size, marked free, into the header of
     * its first block, then into FTRP of its last block (read after the
     * first write). The words then lay out the blocks with the run merged.
     */
    method PutRunTags(backLimit: int, frontLimit: int, size: Word, ghost i: nat, ghost k: nat, ghost j: nat)
      requires Valid() && WellFormed(Img(), heapListp, blocks)
      requires 0 < i < |blocks| && !blocks[i].isAlloc && AdjacentFreeOnlyAt(blocks, i)
      requires k == RunStart(blocks, i) && 1 <= k && j == RunEnd(blocks, i)
      requires backLimit == Start(heapListp, blocks, k) && frontLimit == Start(heapListp, blocks, j)
      requires size == Start(heapListp, blocks, j + 1) - backLimit
      modifies this`words
      ensures Valid() && WellFormed(Img(), heapListp, Coalesced(blocks, i)) && NoAdjacentFree(Coalesced(blocks, i))
      ensures Start(heapListp, Coalesced(blocks, i), k) == backLimit
      ensures KeepsBlocks(old(Img()), Img(), Live(heapListp, blocks))
    {
      ghost var h := Img();
      ghost var hp, bs := heapListp, blocks;
      HeaderWritten(h, hp, bs, k, j, size);
      PutTwoTags(backLimit, frontLimit, size, Start(hp, bs, j + 1) - DSIZE);
      CoalesceEffect(h, Img(), hp, bs, i, k, j, size);
    }

    /** PUT(HDRP(backLimit), PACK(size, 0)), then PUT(FTRP(frontLimit), PACK(size, 0)), the footer being at ftr. */
    method PutTwoTags(backLimit: int, frontLimit: int, size: Word, ghost ftr: int)
      requires Valid() && Img().InRange(Hdrp(backLimit))
      requires var h1 := Img().Put(Hdrp(backLimit), Pack(size, 0));
        h1.InRange(Hdrp(frontLimit)) && Ftrp(h1, frontLimit) == ftr && h1.InRange(ftr)
      modifies this`words
      ensures Valid()
      ensures words == old(words)[backLimit - WSIZE := Pack(size, 0)][ftr := Pack(size, 0)]
    {
      Put(Hdrp(backLimit), Pack(size, 0));
      Put(Ftrp(Img(), frontLimit), Pack(size, 0));
    }

    /**
     * extend_heap(words): grows the region by words rounded up to an even
     * count of words. When mem_sbrk fails it returns NULL and writes nothing;
     * otherwise the new space becomes one free block whose header overwrites
     * the old epilogue, a new epilogue closes the region, root is set to the
     * first block after the prologue if it was NULL, and the new block is
     * coalesced with a free block before it. Returns the payload of the
     * coalesced block.
     */
    method ExtendHeap(words: Word) returns (bp: int)
      requires Ready() && ExtendSize(words) > 0
      modifies this`brk, this`words, this`blocks, this`root
      ensures Ready()
      ensures var size := ExtendSize(words);
        old(brk) + size > lo + 4 * capacity ==>
          bp == NULL && brk == old(brk) && this.words == old(this.words) &&
          blocks == old(blocks) && root == old(root)
      ensures var size := ExtendSize(words); var grown := old(blocks) + [Block(size, false)];
        old(brk) + size <= lo + 4 * capacity ==>
          brk == old(brk) + size &&
          blocks == Coalesced(grown, |old(blocks)|) &&
          bp == Start(heapListp, blocks, RunStart(grown, |old(blocks)|)) &&
          root == (if old(root) == NULL then heapListp + DSIZE else old(root))
      ensures KeepsBlocks(old(Img()), Img(), Live(heapListp, old(blocks)))
    {
      var size := ExtendSize(words);
      var h := Img();
      bp := MemSbrk(size);
      if bp == SBRK_FAILED {
        return NULL;
      }
      bp := ExtendRegion(bp, size, h);
    }

    /**
     * The rest of extend_heap once mem_sbrk has granted size bytes at bp, the
     * old break: the free block's tags and the new epilogue, root set to the
     * first block after the prologue if it was NULL, then coalesce.
     */
    method ExtendRegion(bp: int, size: Word, ghost h: Image) returns (r: int)
      requires Valid() && WellFormed(h, heapListp, blocks) && NoAdjacentFree(blocks)
      requires h == Image(lo, bp, words) && bp + size == brk
      requires size >= DSIZE && size % DSIZE == 0
      modifies this`words, this`blocks, this`root
      ensures root == (if old(root) == NULL then heapListp + DSIZE else old(root))
      ensures Ready()
      ensures var grown := old(blocks) + [Block(size, false)];
        blocks == Coalesced(grown, |old(blocks)|) && r == Start(heapListp, blocks, RunStart(grown, |old(blocks)|))
      ensures KeepsBlocks(h, Img(), Live(heapListp, old(blocks)))
    {
      ghost var bs := blocks;
      WriteExtension(bp, size, h);
      ghost var mid := Img();
      if root == NULL {
        root := heapListp + DSIZE;
      }
      r := Coalesce(bp, |bs|);
      ghost var live := Live(heapListp, old(blocks));
      AppendLive(heapListp, old(blocks), size);
      KeepsBlocksChain(h, mid, Img(), live, live, live);
    }

    /**
     * The three writes of extend_heap on a region just grown by size bytes
     * from bp, its old end: the free block's header over the old epilogue,
     * its footer (FTRP reads the new header), and the new epilogue header
     * (NEXT_BLKP reads it too).
     */
    method PutExtensionTags(bp: int, size: Word)
      requires Valid() && lo <= bp - WSIZE && bp + size == brk && (bp - lo) % DSIZE == 0
      requires size >= DSIZE && size % DSIZE == 0
      modifies this`words
      ensures Valid()
      ensures words == old(words)[bp - WSIZE := Pack(size, 0)][bp + size - DSIZE := Pack(size, 0)][bp + size - WSIZE := Pack(0, 1)]
    {
      AlignedSum(bp - lo, size);
      AlignedSum(bp - lo, 0);
      assert bp - WSIZE in words;
      assert bp + size - DSIZE in words;
      assert bp + size - WSIZE in words;
      Put(Hdrp(bp), Pack(size, 0));
      var ftr := Ftrp(Img(), bp);
      assert ftr == bp + size - DSIZE;
      Put(ftr, Pack(size, 0));
      var epi := Hdrp(NextBlkp(Img(), bp));
      assert epi == bp + size - WSIZE;
      Put(epi, Pack(0, 1));
    }

    /** extend_heap's writes append a free block of size bytes at bp, the old end of the heap. */
    method WriteExtension(bp: int, size: Word, ghost h: Image)
      requires Valid() && WellFormed(h, heapListp, blocks) && NoAdjacentFree(blocks)
      requires h == Image(lo, bp, words) && bp + size == brk
      requires size >= DSIZE && size % DSIZE == 0
      modifies this`words, this`blocks
      ensures Valid() && WellFormed(Img(), heapListp, blocks)
      ensures blocks == old(blocks) + [Block(size, false)]
      ensures 0 < |old(blocks)| && bp == Start(heapListp, blocks, |old(blocks)|)
      ensures AdjacentFreeOnlyAt(blocks, |old(blocks)|)
      ensures KeepsBlocks(h, Img(), Live(heapListp, old(blocks)))
    {
      ghost var hp, bs := heapListp, blocks;
      LayoutEnd(h, hp, bs);
      LayoutAligned(h, hp, bs, |bs|);
      LayoutSpan(h, hp, bs, 0, |bs|);
      AlignedSum(bp - lo, size);
      assert bp + size - DSIZE in h.words;
      assert bp + size - WSIZE in h.words;
      PutExtensionTags(bp, size);
      ExtendWritten(h, words, hp, bs, size);
      blocks := bs + [Block(size, false)];
      AppendedFree(bs, size);
      assert Img() == Image(h.lo, h.hi + size, words);
    }

    /**
     * mm_init: takes four words from mem_sbrk for the pad, the prologue's
     * header and footer and the epilogue, points heap_listp at the prologue's
     * payload, and extends the heap by CHUNKSIZE bytes. Returns -1 (with
     * heap_listp left at (void *) -1 and nothing written) when the first
     * mem_sbrk fails, and -1 when extend_heap fails. root receives the value
     * of `extend_heap(...) == NULL`: 0 on success, 1 on failure.
     */
    method Init() returns (result: int)
      requires Valid()
      modifies this`brk, this`words, this`heapListp, this`root, this`blocks
      ensures Valid()
      ensures old(brk) + 4 * WSIZE > lo + 4 * capacity ==>
        result == -1 && heapListp == SBRK_FAILED && brk == old(brk) && this.words == old(this.words) &&
        root == old(root) && blocks == old(blocks)
      ensures old(brk) + 4 * WSIZE <= lo + 4 * capacity ==>
        heapListp == old(brk) + DSIZE && Ready() && PrologueWords(Img(), heapListp)
      ensures old(brk) + 4 * WSIZE <= lo + 4 * capacity < old(brk) + 4 * WSIZE + CHUNKSIZE ==>
        result == -1 && root == 1 && brk == old(brk) + 4 * WSIZE && blocks == [Prologue] &&
        Img().InRange(heapListp + WSIZE) && Img().Get(heapListp + WSIZE) == Pack(0, 1)
      ensures old(brk) + 4 * WSIZE + CHUNKSIZE <= lo + 4 * capacity ==>
        result == 0 && root == 0 && brk == old(brk) + 4 * WSIZE + CHUNKSIZE &&
        blocks == [Prologue, Block(CHUNKSIZE, false)]
    {
      var ok := InitPrologue();
      if !ok {
        return -1;
      }
      assert ExtendSize(CHUNKSIZE / WSIZE) == CHUNKSIZE;
      var e := ExtendHeap(CHUNKSIZE / WSIZE);
      root := if e == NULL then 1 else 0;
      Sentinels(Img(), heapListp, blocks);
      if e == NULL {
        return -1;
      }
      FirstExtension();
      return 0;
    }

    /**
     * The first half of mm_init: mem_sbrk of four words, then the pad, the
     * prologue and the epilogue written there and heap_listp moved to the
     * prologue's payload. Reports whether mem_sbrk succeeded.
     */
    method InitPrologue() returns (ok: bool)
      requires Valid()
      modifies this`brk, this`words, this`heapListp, this`blocks
      ensures Valid()
      ensures ok <==> old(brk) + 4 * WSIZE <= lo + 4 * capacity
      ensures !ok ==> heapListp == SBRK_FAILED && brk == old(brk) && words == old(words) && blocks == old(blocks)
      ensures ok ==>
        heapListp == old(brk) + DSIZE && brk == old(brk) + 4 * WSIZE && blocks == [Prologue] &&
        Ready() && Img().InRange(heapListp + WSIZE) && Img().Get(heapListp + WSIZE) == Pack(0, 1)
    {
      var base := MemSbrk(4 * WSIZE);
      heapListp := base;
      if heapListp == SBRK_FAILED {
        return false;
      }
      ghost var w0 := words;
      AlignedSum(lo, base - lo);
      PutPrologue(base);
      heapListp := heapListp + 2 * WSIZE;
      InitWritten(Img(), base, w0);
      blocks := [Prologue];
      return true;
    }

    /** The four words mm_init writes at base: the pad, the prologue's header and footer, the epilogue. */
    method PutPrologue(base: int)
      requires Valid() && lo <= base && base + 4 * WSIZE == brk && (base - lo) % DSIZE == 0
      modifies this`words
      ensures Valid()
      ensures words == old(words)[base := 0][base + WSIZE := Pack(DSIZE, 1)][base + 2 * WSIZE := Pack(DSIZE, 1)][base + 3 * WSIZE := Pack(0, 1)]
    {
      DoubleWordAligned(base - lo);
      WordOffset(base - lo, 1);
      WordOffset(base - lo, 2);
      WordOffset(base - lo, 3);
      assert base in words && base + WSIZE in words;
      assert base + 2 * WSIZE in words && base + 3 * WSIZE in words;
      Put(base, 0);
      Put(base + WSIZE, Pack(DSIZE, 1));
      Put(base + 2 * WSIZE, Pack(DSIZE, 1));
      Put(base + 3 * WSIZE, Pack(0, 1));
    }

    /**
     * INTENT of find_fit (first fit): walks the blocks from heap_listp in
     * address order up to the epilogue and returns the first free block of at
     * least asize bytes, or NULL when there is none.
     */
    method FindFit(asize: Word) returns (bp: int)
      requires Ready()
      ensures var i := FirstFit(blocks, asize, 0);
        bp == (if i < |blocks| then Start(heapListp, blocks, i) else NULL)
    {
      var h := Img();
      ghost var hp, bs := heapListp, blocks;
      ghost var t := 0;
      bp := heapListp;
      assert Start(hp, bs, 0) == hp by {
        assert bs[..0] == [];
      }
      LayoutHeader(h, hp, bs, 0);
      while GetSize(h, Hdrp(bp)) > 0
        invariant t <= |bs| && bp == Start(hp, bs, t)
        invariant h.InRange(Hdrp(bp))
        invariant GetSize(h, Hdrp(bp)) == (if t < |bs| then bs[t].size else 0)
        invariant GetAlloc(h, Hdrp(bp)) == (if t < |bs| then Flag(bs[t]) else 1)
        invariant t < |bs| ==> bs[t].size > 0
        invariant FirstFit(bs, asize, t) == FirstFit(bs, asize, 0)
        decreases |bs| - t
      {
        if GetAlloc(h, Hdrp(bp)) == 0 && asize <= GetSize(h, Hdrp(bp)) {
          return;
        }
        LayoutNext(h, hp, bs, t);
        bp := NextBlkp(h, bp);
        t := t + 1;
        LayoutHeader(h, hp, bs, t);
      }
      bp := NULL;
    }

    /**
     * PUT(HDRP(bp), PACK(size, alloc)); PUT(FTRP(bp), PACK(size, alloc)):
     * the header and footer of the block of size bytes at payload bp.
     */
    method PutBlockTags(bp: int, size: Word, alloc: int)
      requires Valid() && lo <= bp - WSIZE && bp + size <= brk && (bp - lo) % DSIZE == 0
      requires size >= DSIZE && size % DSIZE == 0
      modifies this`words
      ensures Valid()
      ensures words == old(words)[bp - WSIZE := Pack(size, alloc)][bp + size - DSIZE := Pack(size, alloc)]
    {
      AlignedSum(bp - lo, size);
      AlignedSum(bp - lo, 0);
      assert bp - WSIZE in words;
      assert bp + size - DSIZE in words;
      Put(Hdrp(bp), Pack(size, alloc));
      var ftr := Ftrp(Img(), bp);
      assert ftr == bp + size - DSIZE;
      Put(ftr, Pack(size, alloc));
    }

    /**
     * memcpy(dst, src, 4 * n) word by word, into the payload of allocated
     * block d >= 1 from words of the region that do not overlap the
     * destination: each destination word receives the source word at the
     * same offset, no other word changes, and the heap stays as it was laid
     * out.
     */
    method CopyWords(dst: int, src: int, n: nat, ghost d: nat)
      requires Ready()
      requires 0 < d < |blocks| && dst == Start(heapListp, blocks, d)
      requires dst + WSIZE * n <= Start(heapListp, blocks, d + 1) - DSIZE
      requires lo <= src && src + WSIZE * n <= brk && (src - lo) % WSIZE == 0
      requires src + WSIZE * n <= dst || dst + WSIZE * n <= src
      modifies this`words
      ensures Ready()
      ensures CopiedWords(old(Img()), Img(), dst, src, WSIZE * n)
      ensures KeepsOutside(old(Img()), Img(), dst, dst + WSIZE * n)
    {
      ghost var h0 := Img();
      BlockSpan(h0, heapListp, blocks, d);
      DoubleWordAligned(dst - lo);
      assert Dense(h0);
      var m := 0;
      while m < n
        invariant 0 <= m <= n
        invariant Valid() && Img().lo == h0.lo && Img().hi == h0.hi && h0.words.Keys <= words.Keys
        invariant CopiedWords(h0, Img(), dst, src, WSIZE * m)
        invariant KeepsOutside(h0, Img(), dst, dst + WSIZE * m)
      {
        CopyWord(dst, src, m, n, h0);
        m := m + 1;
      }
      PayloadWritten(h0, Img(), heapListp, blocks, d, dst, dst + WSIZE * n);
    }

    /** One iteration of the copy loop: word m of the source stored at dst + 4 * m. */
    method CopyWord(dst: int, src: int, m: nat, n: nat, ghost h0: Image)
      requires Valid() && m < n
      requires lo <= dst && dst + WSIZE * n <= brk && (dst - lo) % WSIZE == 0
      requires lo <= src && src + WSIZE * n <= brk && (src - lo) % WSIZE == 0
      requires src + WSIZE * n <= dst || dst + WSIZE * n <= src
      requires h0.lo == lo && h0.hi == brk && Dense(h0) && h0.words.Keys <= words.Keys
      requires CopiedWords(h0, Img(), dst, src, WSIZE * m) && KeepsOutside(h0, Img(), dst, dst + WSIZE * m)
      modifies this`words
      ensures Valid() && h0.words.Keys <= words.Keys
      ensures CopiedWords(h0, Img(), dst, src, WSIZE * (m + 1)) && KeepsOutside(h0, Img(), dst, dst + WSIZE * (m + 1))
    {
      var from := src + WSIZE * m;
      assert from in words && from in h0.words && dst + WSIZE * m in words by {
        WordOffset(src - lo, m);
        WordOffset(dst - lo, m);
      }
      ghost var before := Img();
      var v := Img().Get(from);
      Put(dst + WSIZE * m, v);
      CopyStep(h0, before, Img(), dst, src, m, v);
    }

    /**
     * mm_realloc: malloc a block for size bytes, exit(1) when that fails
     * (reported as `exited`), copy MIN(GET_SIZE(HDRP(ptr)), size) bytes from
     * ptr to the new block, free ptr and return the new block. Every other
     * allocated block is kept.
     */
    method Realloc(ptr: int, size: Word, ghost i: nat) returns (newp: int, exited: bool)
      requires Ready()
      requires 0 < i < |blocks| && blocks[i].isAlloc && ptr == Start(heapListp, blocks, i)
      modifies this`brk, this`words, this`blocks, this`root
      ensures RootSet(old(root), old(brk), root, brk, heapListp)
      ensures Ready()
      ensures old(Img()).InRange(Hdrp(ptr))
      ensures exited <==> newp == NULL
      ensures size == 0 ==> exited
      ensures var asize := AdjustedSize(size);
        exited <==> (size == 0 || asize >= WORD_LIMIT ||
          (FirstFit(old(blocks), asize, 0) == |old(blocks)| && old(brk) + Max(asize, CHUNKSIZE) > lo + 4 * capacity))
      ensures exited ==> blocks == old(blocks) && brk == old(brk) && words == old(words)
      ensures exited ==> Live(heapListp, blocks) == Live(heapListp, old(blocks))
      ensures !exited ==> var asize := AdjustedSize(size); var extend := Max(asize, CHUNKSIZE);
        var placed := MallocBlocks(old(blocks), asize, extend); var j := MallocShift(old(blocks), asize, extend, i);
        0 < j < |placed| && blocks == Coalesced(Freed(placed, j), j) &&
        newp == Start(heapListp, placed, MallocIndex(old(blocks), asize, extend))
      ensures !exited ==> Reallocated(old(Img()), Img(), heapListp, old(blocks), blocks, ptr, old(GetSize(Img(), Hdrp(ptr))), newp, size)
      ensures KeepsBlocks(old(Img()), Img(), Live(heapListp, old(blocks)) - {(ptr, old(GetSize(Img(), Hdrp(ptr))))})
    {
      ghost var h0, bs0 := Img(), blocks;
      LayoutHeader(h0, heapListp, bs0, i);
      assert Dense(h0);
      newp := Malloc(size);
      if newp == NULL {
        // printf and exit(1)
        exited := true;
        KeepsBlocksSubset(h0, Img(), Live(heapListp, bs0), Live(heapListp, bs0) - {(ptr, bs0[i].size)});
        return;
      }
      exited := false;
      ghost var asize := AdjustedSize(size);
      ghost var extend := Max(asize, CHUNKSIZE);
      MallocKeeps(heapListp, bs0, asize, extend, i);
      MoveBlock(ptr, newp, size, h0, bs0, i, MallocShift(bs0, asize, extend, i));
    }

    /**
     * The rest of mm_realloc once malloc has granted newp: the copy of
     * copySize bytes from ptr, then mm_free(ptr).
     */
    method MoveBlock(ptr: int, newp: int, size: Word, ghost h0: Image, ghost bs0: seq<Block>, ghost i: nat, ghost j: nat)
      requires Ready() && h0.lo == lo && Dense(h0)
      requires WellFormed(h0, heapListp, bs0) && 0 < i < |bs0| && bs0[i].isAlloc && ptr == Start(heapListp, bs0, i)
      requires h0.InRange(Hdrp(ptr)) && GetSize(h0, Hdrp(ptr)) == bs0[i].size
      requires Granted(Img(), heapListp, bs0, blocks, newp, AdjustedSize(size))
      requires KeepsBlocks(h0, Img(), Live(heapListp, bs0))
      requires 0 < j < |blocks| && ptr == Start(heapListp, blocks, j)
      modifies this`words, this`blocks
      ensures Ready()
      ensures blocks == Coalesced(Freed(old(blocks), j), j)
      ensures Reallocated(h0, Img(), heapListp, bs0, blocks, ptr, GetSize(h0, Hdrp(ptr)), newp, size)
      ensures KeepsBlocks(h0, Img(), Live(heapListp, bs0) - {(ptr, GetSize(h0, Hdrp(ptr)))})
    {
      ghost var h1, bs1 := Img(), blocks;
      ghost var j0, d := GrantedIndices(h0, h1, heapListp, bs0, bs1, i, ptr, newp, AdjustedSize(size));
      PayloadUnique(h1, heapListp, bs1, j0, j);
      assert Regranted(h0, h1, heapListp, bs0, bs1, i, j, d, ptr, newp, AdjustedSize(size));
      LayoutHeader(h1, heapListp, bs1, j);
      ghost var len := CopyBlock(ptr, newp, size, j, d);
      ghost var h2 := Img();
      Free(ptr, j);
      ReallocDone(h0, h1, h2, Img(), heapListp, bs0, bs1, blocks, i, j, d, ptr, newp, size, GetSize(h0, Hdrp(ptr)), len);
    }

    /**
     * memcpy(newp, ptr, copySize) with copySize = MIN(GET_SIZE(HDRP(ptr)),
     * size), copying whole words: ptr is block j's payload, newp that of
     * allocated block d, which holds at least AdjustedSize(size) bytes.
     */
    method CopyBlock(ptr: int, newp: int, size: Word, ghost j: nat, ghost d: nat) returns (ghost len: nat)
      requires Ready() && j != d
      requires 0 < j < |blocks| && ptr == Start(heapListp, blocks, j)
      requires 0 < d < |blocks| && newp == Start(heapListp, blocks, d) && AdjustedSize(size) <= blocks[d].size
      requires d < j ==> newp + blocks[d].size <= ptr
      requires j < d ==> ptr + blocks[j].size <= newp
      modifies this`words
      ensures Ready()
      ensures old(Img()).InRange(Hdrp(ptr)) && len == CopiedBytes(old(GetSize(Img(), Hdrp(ptr))), size)
      ensures newp + len <= Start(heapListp, blocks, d + 1) - DSIZE
      ensures CopiedWords(old(Img()), Img(), newp, ptr, len) && KeepsOutside(old(Img()), Img(), newp, newp + len)
    {
      ghost var h1 := Img();
      LayoutHeader(h1, heapListp, blocks, j);
      var copySize := GetSize(Img(), Hdrp(ptr));
      if size < copySize {
        copySize := size;
      }
      var n := (copySize + WSIZE - 1) / WSIZE;
      len := CopiedBytes(GetSize(h1, Hdrp(ptr)), size);
      CopyPlan(h1, heapListp, blocks, j, d, ptr, newp, size, copySize, n);
      CopyWords(newp, ptr, n, d);
    }

    /**
     * INTENT of mm_malloc: a request of 0 bytes gets NULL; otherwise the
     * first free block that fits the adjusted size is placed, and when none
     * does the heap is extended by MAX(asize, CHUNKSIZE) bytes and the block
     * at the end placed; NULL when the heap cannot grow. Every block
     * allocated before is kept.
     */
    method Malloc(size: Word) returns (bp: int)
      requires Ready()
      modifies this`brk, this`words, this`blocks, this`root
      ensures RootSet(old(root), old(brk), root, brk, heapListp)
      ensures Ready()
      ensures size == 0 ==> bp == NULL
      ensures var asize := AdjustedSize(size);
        bp == NULL <==> (size == 0 || asize >= WORD_LIMIT ||
          (FirstFit(old(blocks), asize, 0) == |old(blocks)| && old(brk) + Max(asize, CHUNKSIZE) > lo + 4 * capacity))
      ensures bp == NULL ==> blocks == old(blocks) && brk == old(brk) && words == old(words)
      ensures bp == NULL ==> Live(heapListp, blocks) == Live(heapListp, old(blocks))
      ensures bp != NULL ==> var asize := AdjustedSize(size); var extend := Max(asize, CHUNKSIZE);
        blocks == MallocBlocks(old(blocks), asize, extend) &&
        bp == Start(heapListp, blocks, MallocIndex(old(blocks), asize, extend)) &&
        brk == old(brk) + (if FirstFit(old(blocks), asize, 0) < |old(blocks)| then 0 else extend)
      ensures bp != NULL ==> Granted(Img(), heapListp, old(blocks), blocks, bp, AdjustedSize(size))
      ensures KeepsBlocks(old(Img()), Img(), Live(heapListp, old(blocks)))
    {
      if size == 0 {
        return NULL;
      }
      var asize := AdjustedSize(size);
      if asize >= WORD_LIMIT {
        return NULL;
      }
      bp := FindFit(asize);
      if bp != NULL {
        PlaceFound(bp, asize);
        return;
      }
      bp := ExtendAndPlace(asize);
    }

    /**
     * mm_malloc when find_fit found nothing: extend the heap by
     * MAX(asize, CHUNKSIZE) bytes and place the request in the block
     * extend_heap returns; NULL, with nothing changed, when the heap cannot grow.
     */
    method ExtendAndPlace(asize: Word) returns (bp: int)
      requires Ready() && asize >= MIN_BLOCK && asize % DSIZE == 0
      requires FirstFit(blocks, asize, 0) == |blocks|
      modifies this`brk, this`words, this`blocks, this`root
      ensures Ready()
      ensures bp == NULL <==> old(brk) + Max(asize, CHUNKSIZE) > lo + 4 * capacity
      ensures bp == NULL ==> blocks == old(blocks) && brk == old(brk) && words == old(words) && root == old(root)
      ensures bp != NULL ==> var extend := Max(asize, CHUNKSIZE);
        blocks == MallocBlocks(old(blocks), asize, extend) &&
        bp == Start(heapListp, blocks, MallocIndex(old(blocks), asize, extend)) &&
        brk == old(brk) + extend && root == (if old(root) == NULL then heapListp + DSIZE else old(root))
      ensures bp != NULL ==> Granted(Img(), heapListp, old(blocks), blocks, bp, asize)
      ensures KeepsBlocks(old(Img()), Img(), Live(heapListp, old(blocks)))
    {
      var extendSize := Max(asize, CHUNKSIZE);
      ChunkWords(asize);
      ghost var h := Img();
      ghost var bs := blocks;
      bp := ExtendHeap(extendSize / WSIZE);
      if bp == NULL {
        return;
      }
      PlaceExtended(bp, asize, extendSize, h, bs);
    }

    /** mm_malloc when find_fit found block bp: place the request there. */
    method PlaceFound(bp: int, asize: Word)
      requires Ready() && asize >= MIN_BLOCK && asize % DSIZE == 0
      requires var i := FirstFit(blocks, asize, 0); i < |blocks| && bp == Start(heapListp, blocks, i)
      modifies this`words, this`blocks
      ensures Ready()
      ensures var i := FirstFit(old(blocks), asize, 0);
        i < |old(blocks)| && blocks == Placed(old(blocks), i, asize) && bp == Start(heapListp, blocks, i)
      ensures Granted(Img(), heapListp, old(blocks), blocks, bp, asize)
      ensures KeepsBlocks(old(Img()), Img(), Live(heapListp, old(blocks)))
    {
      ghost var h := Img();
      ghost var hp, bs := heapListp, blocks;
      ghost var i := FirstFit(bs, asize, 0);
      assert i != 0 by {
        assert !FitsRequest(bs[0], asize);
      }
      Place(bp, asize, i);
      PlaceGrants(h, Img(), hp, bs, i, asize);
      assert Start(hp, blocks, i) == Start(hp, bs, i) by {
        PlacedShape(bs, i, asize);
      }
    }

    /**
     * mm_malloc after extend_heap grew the heap from h (blocks bs) by
     * extendSize >= asize bytes and returned the coalesced block bp at its
     * end: place the request there.
     */
    method PlaceExtended(bp: int, asize: Word, extendSize: int, ghost h: Image, ghost bs: seq<Block>)
      requires Ready() && asize >= MIN_BLOCK && asize % DSIZE == 0 && asize <= extendSize
      requires |bs| >= 1 && bs[0].isAlloc && h.lo == lo && h.hi <= brk
      requires var grown := bs + [Block(extendSize, false)];
        blocks == Coalesced(grown, |bs|) && bp == Start(heapListp, blocks, RunStart(grown, |bs|))
      requires KeepsBlocks(h, Img(), Live(heapListp, bs))
      requires FirstFit(bs, asize, 0) == |bs|
      modifies this`words, this`blocks
      ensures Ready()
      ensures blocks == MallocBlocks(bs, asize, extendSize) && bp == Start(heapListp, blocks, MallocIndex(bs, asize, extendSize))
      ensures Granted(Img(), heapListp, bs, blocks, bp, asize)
      ensures KeepsBlocks(h, Img(), Live(heapListp, bs))
    {
      ghost var mid := Img();
      ghost var hp, c := heapListp, blocks;
      ghost var k := RunStart(bs + [Block(extendSize, false)], |bs|);
      CoalescedAppend(bs, extendSize);
      Place(bp, asize, k);
      assert Start(hp, blocks, k) == Start(hp, c, k) by {
        PlacedShape(c, k, asize);
      }
      PlaceGrants(mid, Img(), hp, c, k, asize);
      ExtendLive(hp, bs, extendSize);
      KeepsBlocksChain(h, mid, Img(), Live(hp, bs), Live(hp, c), Live(hp, bs));
    }

    /**
     * INTENT of place: allocates asize bytes at the start of free block bp
     * (block i), splitting off the rest as a free block when it is at least
     * the minimum block size (DSIZE + OVERHEAD), and otherwise marking the
     * whole block allocated.
     */
    method Place(bp: int, asize: Word, ghost i: nat)
      requires Ready()
      requires 0 < i < |blocks| && FitsRequest(blocks[i], asize) && bp == Start(heapListp, blocks, i)
      requires asize >= DSIZE && asize % DSIZE == 0
      modifies this`words, this`blocks
      ensures Ready()
      ensures blocks == Placed(old(blocks), i, asize)
      ensures KeepsBlocks(old(Img()), Img(), Live(heapListp, old(blocks)))
    {
      LayoutHeader(Img(), heapListp, blocks, i);
      var csize := GetSize(Img(), Hdrp(bp));
      if csize - asize >= DSIZE + OVERHEAD {
        PlaceSplit(bp, asize, csize, i);
      } else {
        PlaceWhole(bp, asize, csize, i);
      }
    }

    /** place when the block splits: asize bytes allocated, the rest a free block after them. */
    method PlaceSplit(bp: int, asize: Word, csize: Word, ghost i: nat)
      requires Ready()
      requires 0 < i < |blocks| && FitsRequest(blocks[i], asize) && bp == Start(heapListp, blocks, i)
      requires asize >= DSIZE && asize % DSIZE == 0
      requires csize == blocks[i].size && csize - asize >= DSIZE + OVERHEAD
      modifies this`words, this`blocks
      ensures Ready()
      ensures blocks == Placed(old(blocks), i, asize)
      ensures KeepsBlocks(old(Img()), Img(), Live(heapListp, old(blocks)))
    {
      ghost var h := Img();
      ghost var hp, bs := heapListp, blocks;
      assert lo <= bp - WSIZE && bp + csize <= brk && (bp - lo) % DSIZE == 0 && csize % DSIZE == 0 by {
        BlockSpan(h, hp, bs, i);
      }
      PutSplitTags(bp, asize, csize);
      assert WellFormed(Img(), hp, Placed(bs, i, asize)) && KeepsBlocks(h, Img(), Live(hp, bs)) by {
        SplitWritten(h, words, hp, bs, i, bp, asize, csize);
      }
      blocks := Placed(bs, i, asize);
      PlacedNoAdjacentFree(bs, i, asize);
    }

    /** place when the remainder is too small to split: the whole block allocated. */
    method PlaceWhole(bp: int, asize: Word, csize: Word, ghost i: nat)
      requires Ready()
      requires 0 < i < |blocks| && FitsRequest(blocks[i], asize) && bp == Start(heapListp, blocks, i)
      requires csize == blocks[i].size && csize - asize < DSIZE + OVERHEAD
      modifies this`words, this`blocks
      ensures Ready()
      ensures blocks == Placed(old(blocks), i, asize)
      ensures KeepsBlocks(old(Img()), Img(), Live(heapListp, old(blocks)))
    {
      ghost var h := Img();
      ghost var hp, bs := heapListp, blocks;
      assert lo <= bp - WSIZE && bp + csize <= brk && (bp - lo) % DSIZE == 0 && csize >= DSIZE && csize % DSIZE == 0 by {
        BlockSpan(h, hp, bs, i);
      }
      PutBlockTags(bp, csize, 1);
      WholeWritten(h, words, hp, bs, i, bp, asize, csize);
      blocks := Placed(bs, i, asize);
      PlacedNoAdjacentFree(bs, i, asize);
    }

    /**
     * place's four writes when it splits: PACK(asize, 1) in the header and
     * footer of bp, then PACK(csize - asize, 0) in the header and footer of
     * NEXT_BLKP(bp).
     */
    method PutSplitTags(bp: int, asize: Word, csize: Word)
      requires Valid() && lo <= bp - WSIZE && bp + csize <= brk && (bp - lo) % DSIZE == 0
      requires asize >= DSIZE && asize % DSIZE == 0 && csize % DSIZE == 0 && csize - asize >= MIN_BLOCK
      modifies this`words
      ensures Valid()
      ensures words == old(words)[bp - WSIZE := Pack(asize, 1)][bp + asize - DSIZE := Pack(asize, 1)]
                                 [bp + asize - WSIZE := Pack(csize - asize, 0)][bp + csize - DSIZE := Pack(csize - asize, 0)]
    {
      PutBlockTags(bp, asize, 1);
      AlignedSum(bp - lo, asize);
      var next := NextBlkp(Img(), bp);
      assert next == bp + asize;
      PutBlockTags(next, csize - asize, 0);
    }

    /**
     * INTENT of mm_free: marks block bp (block i, allocated) free in its
     * header and footer and coalesces it with its free neighbours. The block
     * leaves the allocated blocks and every other allocated block is kept.
     */
    method Free(bp: int, ghost i: nat)
      requires Ready()
      requires 0 < i < |blocks| && blocks[i].isAlloc && bp == Start(heapListp, blocks, i)
      modifies this`words, this`blocks
      ensures Ready()
      ensures blocks == Coalesced(Freed(old(blocks), i), i)
      ensures Live(heapListp, blocks) == Live(heapListp, old(blocks)) - {(bp, old(blocks)[i].size)}
      ensures KeepsBlocks(old(Img()), Img(), Live(heapListp, blocks))
    {
      ghost var h := Img();
      ghost var hp, bs := heapListp, blocks;
      ghost var x := (bp, bs[i].size);
      MarkFree(bp, i);
      ghost var mid := Img();
      var r := Coalesce(bp, i);
      FreeFrame(h, mid, Img(), hp, bs, i);
    }

    /** mm_free's two writes: PACK(size, 0) in the header and footer of block bp (block i). */
    method MarkFree(bp: int, ghost i: nat)
      requires Ready()
      requires 0 < i < |blocks| && blocks[i].isAlloc && bp == Start(heapListp, blocks, i)
      modifies this`words, this`blocks
      ensures Valid() && WellFormed(Img(), heapListp, blocks)
      ensures blocks == Freed(old(blocks), i) && AdjacentFreeOnlyAt(blocks, i)
      ensures KeepsBlocks(old(Img()), Img(), Live(heapListp, old(blocks)) - {(bp, old(blocks)[i].size)})
    {
      ghost var h := Img();
      ghost var hp, bs := heapListp, blocks;
      LayoutHeader(h, hp, bs, i);
      var size := GetSize(Img(), Hdrp(bp));
      assert lo <= bp - WSIZE && bp + size <= brk && (bp - lo) % DSIZE == 0 && size >= DSIZE && size % DSIZE == 0 by {
        BlockSpan(h, hp, bs, i);
      }
      PutBlockTags(bp, size, 0);
      assert WellFormed(Img(), hp, Freed(bs, i)) by {
        RetagWritten(h, words, hp, bs, i, bp, Block(size, false), size);
      }
      assert KeepsBlocks(h, Img(), Live(hp, bs) - {(bp, size)}) by {
        RetagWritten(h, words, hp, bs, i, bp, Block(size, false), size);
        assert LiveIn(hp, bs, i, i + 1) == {(bp, size)};
      }
      blocks := Freed(bs, i);
      FreedAdjacent(bs, i);
    }

    /**
     * mm_free as written: `*(uint32_t *) HDRP(bp) |= 0` reads the header and
     * stores back the same value OR 0, which is PACK(w, 0).
     */
    method FreeAsWritten(bp: int)
      requires Valid() && Img().InRange(Hdrp(bp))
      modifies this`words
      ensures Valid()
      ensures words == old(words)
      ensures GetAlloc(Img(), Hdrp(bp)) == old(GetAlloc(Img(), Hdrp(bp)))
    {
      var w := Img().Get(Hdrp(bp));
      OrZeroKeepsHeader(w);
      Put(Hdrp(bp), Pack(w, 0));
    }

    /**
     * mm_checkheap: the prologue test, checkblock of the prologue, the loop
     * that runs checkblock on every block up to the first header of size 0,
     * and the epilogue test there. The diagnostics are returned in the order
     * they would be printed; on a heap as the allocator keeps it there are none.
     */
    method CheckHeap() returns (vs: seq<Violation>)
      requires Valid() && Checkable(Img(), heapListp)
      ensures vs == CheckReport(Img(), heapListp)
      ensures Ready() ==> vs == []
    {
      var h, hp := Img(), heapListp;
      vs := RunCheck(h, hp);
      if Ready() {
        WellFormedPasses(h, hp, blocks);
      }
    }

    /** PUT(p, v): stores v in the word at address p. */
    method Put(p: int, v: Word)
      requires Valid() && Img().InRange(p)
      modifies this`words
      ensures Valid()
      ensures words == old(words)[p := v]
    {
      words := words[p := v];
    }
  }
}
