/**
 * The heap region as a map from word addresses to 32-bit words, the address macros of the
 * allocator (HDRP, FTRP, NEXT_BLKP, PREV_BLKP) over it, and the block layout
 * the allocator maintains:
 *
 *   | pad | hdr(8:a) | ftr(8:a) | zero or more user blocks | hdr(0:a) |
 *
 * Addresses are absolute byte addresses; a payload pointer `bp` has its
 * header word at bp - 4.
 */
module Heap {
  import opened Tags

  /**
   * The words of the region [lo, hi) as the allocator reads and writes them:
   * `words` maps the address of each word to its value.
   */
  datatype Image = Image(lo: int, hi: int, words: map<int, Word>) {

    /** An address whose whole word lies inside the region and holds a value. */
    predicate InRange(p: int) {
      lo <= p && p + WSIZE <= hi && p in words
    }

    /** GET(p): the word at address p. */
    function Get(p: int): Word
      requires InRange(p)
    {
      words[p]
    }

    /** PUT(p, v): the region with the word at address p replaced by v. */
    function Put(p: int, v: Word): (h: Image)
      requires InRange(p)
      ensures h.lo == lo && h.hi == hi && h.InRange(p) && h.Get(p) == v
    {
      Image(lo, hi, words[p := v])
    }
  }

  /**
   * GET and PUT on the same region: writing back the word just read changes
   * nothing, and a write changes the word it addresses and no other.
   */
  lemma GetPut(h: Image, p: int, q: int, v: Word)
    requires h.InRange(p) && h.InRange(q)
    ensures h.Put(p, h.Get(p)) == h
    ensures h.Put(p, v).InRange(q) && h.Put(p, v).Get(q) == (if q == p then v else h.Get(q))
  {
  }

  /** HDRP(bp): the header word sits one word below the payload. */
  function Hdrp(bp: int): (p: int)
    ensures bp - p == WSIZE
  {
    bp - WSIZE
  }

  /** GET_SIZE(p) */
  function GetSize(h: Image, p: int): (s: Word)
    requires h.InRange(p)
    ensures s % DSIZE == 0 && s <= h.Get(p) < s + DSIZE
  {
    SizeOf(h.Get(p))
  }

  /** GET_ALLOC(p) */
  function GetAlloc(h: Image, p: int): (a: int)
    requires h.InRange(p)
    ensures (a == 0 || a == 1) && (h.Get(p) - a) % 2 == 0
  {
    AllocOf(h.Get(p))
  }

  /** FTRP(bp): payload plus the size in the header, minus a double word. */
  function Ftrp(h: Image, bp: int): (f: int)
    requires h.InRange(Hdrp(bp))
    ensures (f - bp) % DSIZE == 0
  {
    bp + GetSize(h, Hdrp(bp)) - DSIZE
  }

  /** NEXT_BLKP(bp): payload plus the size in the header. */
  function NextBlkp(h: Image, bp: int): (n: int)
    requires h.InRange(bp - WSIZE)
    ensures bp <= n && (n - bp) % DSIZE == 0
  {
    bp + GetSize(h, bp - WSIZE)
  }

  /** PREV_BLKP(bp): payload minus the size in the previous block's footer. */
  function PrevBlkp(h: Image, bp: int): (r: int)
    requires h.InRange(bp - DSIZE)
    ensures r <= bp && (bp - r) % DSIZE == 0
  {
    bp - GetSize(h, bp - DSIZE)
  }

  /**
   * For a block whose header packs an 8-aligned size s: the footer is s - 8
   * bytes past the payload, the next payload s bytes past it, and the next
   * block's header is the word right after this block's footer.
   */
  lemma Navigation(h: Image, bp: int, s: Word, a: int)
    requires s % 8 == 0
    requires h.InRange(bp - WSIZE) && h.Get(bp - WSIZE) == Pack(s, a)
    ensures Hdrp(bp) == bp - WSIZE
    ensures GetSize(h, Hdrp(bp)) == s && GetAlloc(h, Hdrp(bp)) == LowBit(a)
    ensures Ftrp(h, bp) == bp + s - DSIZE
    ensures NextBlkp(h, bp) == bp + s
    ensures Hdrp(NextBlkp(h, bp)) == Ftrp(h, bp) + WSIZE
  {
  }

  /**
   * If a block's footer repeats its header, stepping forward and then back
   * returns to the block: PREV_BLKP(NEXT_BLKP(bp)) == bp.
   */
  lemma PrevOfNext(h: Image, bp: int, s: Word, a: int)
    requires s % 8 == 0
    requires h.InRange(bp - WSIZE) && h.Get(bp - WSIZE) == Pack(s, a)
    requires h.InRange(bp + s - DSIZE) && h.Get(bp + s - DSIZE) == Pack(s, a)
    ensures h.InRange(NextBlkp(h, bp) - DSIZE)
    ensures PrevBlkp(h, NextBlkp(h, bp)) == bp
  {
    Navigation(h, bp, s, a);
  }

  /** If a block's footer repeats its header, NEXT_BLKP(PREV_BLKP(bp)) == bp. */
  lemma NextOfPrev(h: Image, bp: int, s: Word, a: int)
    requires s % 8 == 0
    requires h.InRange(bp - DSIZE) && h.Get(bp - DSIZE) == Pack(s, a)
    requires h.InRange(bp - s - WSIZE) && h.Get(bp - s - WSIZE) == Pack(s, a)
    ensures PrevBlkp(h, bp) == bp - s
    ensures h.InRange(PrevBlkp(h, bp) - WSIZE)
    ensures NextBlkp(h, PrevBlkp(h, bp)) == bp
  {
  }

  // ---------------------------------------------------------------------
  // Blocks and the layout of the region
  // ---------------------------------------------------------------------

  /** A block as its boundary tags describe it. */
  datatype Block = Block(size: nat, isAlloc: bool)

  const Prologue: Block := Block(DSIZE, true)

  function Flag(b: Block): int {
    if b.isAlloc then 1 else 0
  }

  /** A size the allocator can write in a tag: positive, double-word aligned, 32-bit. */
  predicate Fits(b: Block) {
    b.size >= DSIZE && b.size % DSIZE == 0 && b.size < WORD_LIMIT
  }

  /** The header and footer word of a block: PACK(size, alloc). */
  function Tag(b: Block): Word
    requires b.size < WORD_LIMIT
  {
    Pack(b.size, Flag(b))
  }

  /** Total size of a run of blocks (summed from the last block). */
  function SizeSum(bs: seq<Block>): nat {
    if bs == [] then 0 else SizeSum(bs[..|bs| - 1]) + bs[|bs| - 1].size
  }

  /** Payload pointer of block i of a run whose first payload is at bp0. */
  function Start(bp0: int, bs: seq<Block>, i: nat): int
    requires i <= |bs|
  {
    bp0 + SizeSum(bs[..i])
  }

  /** Block b sits at payload bp: header and footer both hold its tag. */
  ghost predicate BlockAt(h: Image, bp: int, b: Block) {
    Fits(b) &&
    h.InRange(bp - WSIZE) && h.Get(bp - WSIZE) == Tag(b) &&
    h.InRange(bp + b.size - DSIZE) && h.Get(bp + b.size - DSIZE) == Tag(b)
  }

  /** The blocks bs lie back to back from payload bp0 on. */
  ghost predicate Segment(h: Image, bp0: int, bs: seq<Block>) {
    forall i {:trigger Start(bp0, bs, i)} :: 0 <= i < |bs| ==> BlockAt(h, Start(bp0, bs, i), bs[i])
  }

  /** The epilogue header hdr(0:a) is the last word of the region. */
  ghost predicate EpilogueAt(h: Image, bp: int) {
    bp == h.hi && h.InRange(bp - WSIZE) && h.Get(bp - WSIZE) == Pack(0, 1)
  }

  /** The blocks bs, starting at the aligned payload bp0, run up to the epilogue. */
  ghost predicate Layout(h: Image, bp0: int, bs: seq<Block>) {
    bp0 % DSIZE == 0 && Segment(h, bp0, bs) && EpilogueAt(h, Start(bp0, bs, |bs|))
  }

  /**
   * The whole heap as mm_init sets it up and every operation keeps it: the pad
   * word, the prologue block (size 8, allocated) at heap_listp, the user
   * blocks, the epilogue.
   */
  ghost predicate WellFormed(h: Image, heapListp: int, bs: seq<Block>) {
    |bs| >= 1 && bs[0] == Prologue &&
    h.InRange(heapListp - DSIZE) && h.Get(heapListp - DSIZE) == 0 &&
    Layout(h, heapListp, bs)
  }

  /** h' agrees with h everywhere outside the addresses [from, to). */
  ghost predicate AgreeOutside(h: Image, h': Image, from: int, to: int) {
    h'.lo == h.lo && h'.hi == h.hi && (forall p :: h.InRange(p) ==> h'.InRange(p)) &&
    forall p :: h.InRange(p) && (p < from || to <= p) ==> h'.Get(p) == h.Get(p)
  }

  /** Agreement outside two adjacent ranges, one step after the other, is agreement outside their union. */
  lemma AgreeOutsideJoin(h: Image, h1: Image, h2: Image, from: int, mid: int, to: int)
    requires from <= mid <= to
    requires AgreeOutside(h, h1, from, mid) && AgreeOutside(h1, h2, mid, to)
    ensures AgreeOutside(h, h2, from, to)
  {
    forall p | h.InRange(p) && (p < from || to <= p)
      ensures h2.Get(p) == h.Get(p)
    {
      assert h1.InRange(p) && h1.Get(p) == h.Get(p);
    }
  }

  // ---------------------------------------------------------------------
  // Arithmetic of block positions
  // ---------------------------------------------------------------------

  lemma {:induction false} SizeSumAppend(a: seq<Block>, b: seq<Block>)
    ensures SizeSum(a + b) == SizeSum(a) + SizeSum(b)
    decreases |b|
  {
    if b == [] {
      assert a + b == a;
    } else {
      var b' := b[..|b| - 1];
      assert (a + b)[..|a + b| - 1] == a + b';
      SizeSumAppend(a, b');
    }
  }

  /** The size of a prefix splits at any interior index. */
  lemma SizeSumSplit(bs: seq<Block>, i: nat, j: nat)
    requires i <= j <= |bs|
    ensures SizeSum(bs[..j]) == SizeSum(bs[..i]) + SizeSum(bs[i..j])
  {
    assert bs[..j] == bs[..i] + bs[i..j];
    SizeSumAppend(bs[..i], bs[i..j]);
  }

  /** Replacing a run bs[k..e] by ns changes the total size by the difference. */
  lemma SizeSumReplace(bs: seq<Block>, k: nat, e: nat, ns: seq<Block>)
    requires k <= e <= |bs|
    ensures SizeSum(bs[..k] + ns + bs[e..]) + SizeSum(bs[k..e]) == SizeSum(bs) + SizeSum(ns)
  {
    SizeSumAppend(bs[..k] + ns, bs[e..]);
    SizeSumAppend(bs[..k], ns);
    SizeSumSplit(bs, k, e);
    SizeSumSplit(bs, e, |bs|);
    assert bs[e..|bs|] == bs[e..];
    assert bs[..|bs|] == bs;
  }

  lemma SizeSumSingle(b: Block)
    ensures SizeSum([b]) == b.size
  {
    assert [b][..0] == [];
  }

  lemma StartNext(bp0: int, bs: seq<Block>, i: nat)
    requires i < |bs|
    ensures Start(bp0, bs, i + 1) == Start(bp0, bs, i) + bs[i].size
  {
    assert bs[..i + 1][..i] == bs[..i];
  }

  lemma StartMonotone(bp0: int, bs: seq<Block>, i: nat, j: nat)
    requires i <= j <= |bs|
    ensures Start(bp0, bs, i) <= Start(bp0, bs, j)
  {
    SizeSumSplit(bs, i, j);
  }

  /** Block i ends no later than block j begins, for i < j. */
  lemma StartOrder(bp0: int, bs: seq<Block>, i: nat, j: nat)
    requires i < j <= |bs|
    ensures Start(bp0, bs, i) + bs[i].size <= Start(bp0, bs, j)
  {
    StartNext(bp0, bs, i);
    StartMonotone(bp0, bs, i + 1, j);
  }

  /** Sizes that are multiples of 8 add up to a multiple of 8. */
  lemma {:induction false} SizeSumAligned(bs: seq<Block>)
    requires forall i :: 0 <= i < |bs| ==> bs[i].size % DSIZE == 0
    ensures SizeSum(bs) % DSIZE == 0
    decreases |bs|
  {
    if bs != [] {
      SizeSumAligned(bs[..|bs| - 1]);
    }
  }

  // ---------------------------------------------------------------------
  // Navigation over a laid-out heap
  // ---------------------------------------------------------------------

  /** In a layout every payload pointer is double-word aligned. */
  lemma LayoutAligned(h: Image, bp0: int, bs: seq<Block>, i: nat)
    requires Layout(h, bp0, bs)
    requires i <= |bs|
    ensures Start(bp0, bs, i) % DSIZE == 0
  {
    forall t | 0 <= t < |bs[..i]|
      ensures bs[..i][t].size % DSIZE == 0
    {
      assert BlockAt(h, Start(bp0, bs, t), bs[t]);
    }
    SizeSumAligned(bs[..i]);
  }

  /**
   * Walking forward over a layout: the header of block i holds its size and
   * flag, its footer is the word before the next header, and NEXT_BLKP
   * moves to block i + 1 (to the epilogue after the last block).
   */
  lemma LayoutNext(h: Image, bp0: int, bs: seq<Block>, i: nat)
    requires Layout(h, bp0, bs)
    requires i < |bs|
    ensures h.InRange(Hdrp(Start(bp0, bs, i)))
    ensures GetSize(h, Hdrp(Start(bp0, bs, i))) == bs[i].size
    ensures GetAlloc(h, Hdrp(Start(bp0, bs, i))) == Flag(bs[i])
    ensures NextBlkp(h, Start(bp0, bs, i)) == Start(bp0, bs, i + 1)
    ensures Ftrp(h, Start(bp0, bs, i)) == Start(bp0, bs, i + 1) - DSIZE
    ensures h.Get(Ftrp(h, Start(bp0, bs, i))) == h.Get(Hdrp(Start(bp0, bs, i)))
  {
    var bp := Start(bp0, bs, i);
    assert BlockAt(h, bp, bs[i]);
    Navigation(h, bp, bs[i].size, Flag(bs[i]));
    StartNext(bp0, bs, i);
  }

  /**
   * Walking backward over a layout: PREV_BLKP of block i (or of the
   * epilogue, i == |bs|) reads the footer of block i - 1 and lands on it.
   */
  lemma LayoutPrev(h: Image, bp0: int, bs: seq<Block>, i: nat)
    requires Layout(h, bp0, bs)
    requires 1 <= i <= |bs|
    ensures h.InRange(Start(bp0, bs, i) - DSIZE)
    ensures PrevBlkp(h, Start(bp0, bs, i)) == Start(bp0, bs, i - 1)
  {
    var bp := Start(bp0, bs, i - 1);
    assert BlockAt(h, bp, bs[i - 1]);
    StartNext(bp0, bs, i - 1);
    PrevOfNext(h, bp, bs[i - 1].size, Flag(bs[i - 1]));
  }

  /** The epilogue header reads as size 0, allocated. */
  lemma LayoutEnd(h: Image, bp0: int, bs: seq<Block>)
    requires Layout(h, bp0, bs)
    ensures h.InRange(Hdrp(Start(bp0, bs, |bs|)))
    ensures GetSize(h, Hdrp(Start(bp0, bs, |bs|))) == 0
    ensures GetAlloc(h, Hdrp(Start(bp0, bs, |bs|))) == 1
  {
  }

  /** The header of block t of a layout, or of the epilogue when t == |bs|. */
  lemma LayoutHeader(h: Image, bp0: int, bs: seq<Block>, t: nat)
    requires Layout(h, bp0, bs)
    requires t <= |bs|
    ensures h.InRange(Hdrp(Start(bp0, bs, t)))
    ensures GetAlloc(h, Hdrp(Start(bp0, bs, t))) == (if t < |bs| then Flag(bs[t]) else 1)
    ensures GetSize(h, Hdrp(Start(bp0, bs, t))) == (if t < |bs| then bs[t].size else 0)
    ensures t < |bs| ==> Fits(bs[t])
  {
    if t < |bs| {
      LayoutNext(h, bp0, bs, t);
      assert BlockAt(h, Start(bp0, bs, t), bs[t]);
    } else {
      LayoutEnd(h, bp0, bs);
    }
  }

  /**
   * The blocks k..e-1 of a layout span Start(e) - Start(k) bytes, a
   * multiple of 8 that lies within the region.
   */
  lemma LayoutSpan(h: Image, bp0: int, bs: seq<Block>, k: nat, e: nat)
    requires Layout(h, bp0, bs)
    requires k <= e <= |bs|
    ensures Start(bp0, bs, e) - Start(bp0, bs, k) == SizeSum(bs[k..e])
    ensures (Start(bp0, bs, e) - Start(bp0, bs, k)) % DSIZE == 0
    ensures Start(bp0, bs, |bs|) == h.hi && Start(bp0, bs, e) <= h.hi
    ensures k < e ==> Start(bp0, bs, e) - Start(bp0, bs, k) >= bs[k].size
  {
    SizeSumSplit(bs, k, e);
    LayoutAligned(h, bp0, bs, k);
    LayoutAligned(h, bp0, bs, e);
    StartMonotone(bp0, bs, e, |bs|);
    if k < e {
      StartOrder(bp0, bs, k, e);
    }
  }

  // ---------------------------------------------------------------------
  // Rewriting a run of blocks
  // ---------------------------------------------------------------------

  /** Blocks before the rewritten run keep their positions. */
  lemma StartBefore(bp0: int, bs: seq<Block>, k: nat, e: nat, ns: seq<Block>, i: nat)
    requires k <= e <= |bs| && i <= k
    ensures Start(bp0, bs[..k] + ns + bs[e..], i) == Start(bp0, bs, i)
  {
    assert (bs[..k] + ns + bs[e..])[..i] == bs[..i];
  }

  /** The new blocks lie back to back from the first rewritten block's payload. */
  lemma StartInside(bp0: int, bs: seq<Block>, k: nat, e: nat, ns: seq<Block>, i: nat)
    requires k <= e <= |bs| && k <= i <= k + |ns|
    ensures Start(bp0, bs[..k] + ns + bs[e..], i) == Start(Start(bp0, bs, k), ns, i - k)
  {
    assert (bs[..k] + ns + bs[e..])[..i] == bs[..k] + ns[..i - k];
    SizeSumAppend(bs[..k], ns[..i - k]);
  }

  /** Blocks after the rewritten run keep their positions when the total size is kept. */
  lemma StartAfter(bp0: int, bs: seq<Block>, k: nat, e: nat, ns: seq<Block>, i: nat)
    requires k <= e <= |bs|
    requires SizeSum(ns) == SizeSum(bs[k..e])
    requires k + |ns| <= i <= |bs[..k] + ns + bs[e..]|
    ensures Start(bp0, bs[..k] + ns + bs[e..], i) == Start(bp0, bs, i - k - |ns| + e)
  {
    var t := i - k - |ns| + e;
    var pre := bs[..k] + ns;
    assert SizeSum((bs[..k] + ns + bs[e..])[..i]) == SizeSum(bs[..k]) + SizeSum(ns) + SizeSum(bs[e..t]) by {
      assert (bs[..k] + ns + bs[e..])[..i] == pre + bs[e..t];
      SizeSumAppend(pre, bs[e..t]);
      SizeSumAppend(bs[..k], ns);
    }
    assert SizeSum(bs[..t]) == SizeSum(bs[..k]) + SizeSum(bs[k..e]) + SizeSum(bs[e..t]) by {
      SizeSumSplit(bs, k, e);
      SizeSumSplit(bs, e, t);
    }
  }

  /** A block before the rewritten run is still in place after the rewrite. */
  lemma KeptBefore(h: Image, h': Image, bp0: int, bs: seq<Block>, k: nat, e: nat, ns: seq<Block>, i: nat)
    requires Layout(h, bp0, bs)
    requires i < k <= e <= |bs|
    requires AgreeOutside(h, h', Start(bp0, bs, k) - WSIZE, Start(bp0, bs, e) - WSIZE)
    ensures BlockAt(h', Start(bp0, bs[..k] + ns + bs[e..], i), bs[i])
  {
    StartBefore(bp0, bs, k, e, ns, i);
    var bp := Start(bp0, bs, i);
    assert BlockAt(h, bp, bs[i]);
    StartOrder(bp0, bs, i, k);
    assert h'.Get(bp - WSIZE) == h.Get(bp - WSIZE);
    assert h'.Get(bp + bs[i].size - DSIZE) == h.Get(bp + bs[i].size - DSIZE);
  }

  /** A block after the rewritten run is still in place after the rewrite. */
  lemma KeptAfter(h: Image, h': Image, bp0: int, bs: seq<Block>, k: nat, e: nat, t: nat)
    requires Layout(h, bp0, bs)
    requires k <= e <= t < |bs|
    requires AgreeOutside(h, h', Start(bp0, bs, k) - WSIZE, Start(bp0, bs, e) - WSIZE)
    ensures BlockAt(h', Start(bp0, bs, t), bs[t])
  {
    var bp := Start(bp0, bs, t);
    assert BlockAt(h, bp, bs[t]);
    StartMonotone(bp0, bs, e, t);
    assert h'.Get(bp - WSIZE) == h.Get(bp - WSIZE);
    assert h'.Get(bp + bs[t].size - DSIZE) == h.Get(bp + bs[t].size - DSIZE);
  }

  /** Block i of bs with bs[k..e] replaced by ns: from bs before the run, from ns inside it, from bs after it. */
  lemma SpliceIndex(bs: seq<Block>, k: nat, e: nat, ns: seq<Block>, i: nat)
    requires k <= e <= |bs| && i < |bs[..k] + ns + bs[e..]|
    ensures (bs[..k] + ns + bs[e..])[i] ==
      if i < k then bs[i] else if i < k + |ns| then ns[i - k] else bs[i - k - |ns| + e]
  {
  }

  /** Block i of the rewritten sequence is in place after the rewrite. */
  lemma ReplacedBlock(h: Image, h': Image, bp0: int, bs: seq<Block>, k: nat, e: nat, ns: seq<Block>, i: nat)
    requires Layout(h, bp0, bs)
    requires k <= e <= |bs|
    requires SizeSum(ns) == SizeSum(bs[k..e])
    requires AgreeOutside(h, h', Start(bp0, bs, k) - WSIZE, Start(bp0, bs, e) - WSIZE)
    requires Segment(h', Start(bp0, bs, k), ns)
    requires i < |bs[..k] + ns + bs[e..]|
    ensures BlockAt(h', Start(bp0, bs[..k] + ns + bs[e..], i), (bs[..k] + ns + bs[e..])[i])
  {
    SpliceIndex(bs, k, e, ns, i);
    if i < k {
      KeptBefore(h, h', bp0, bs, k, e, ns, i);
    } else if i < k + |ns| {
      StartInside(bp0, bs, k, e, ns, i);
      assert BlockAt(h', Start(Start(bp0, bs, k), ns, i - k), ns[i - k]);
    } else {
      var t := i - k - |ns| + e;
      assert BlockAt(h', Start(bp0, bs, t), bs[t]) by {
        KeptAfter(h, h', bp0, bs, k, e, t);
      }
      StartAfter(bp0, bs, k, e, ns, i);
    }
  }

  /** The epilogue is untouched by a rewrite of the blocks before it. */
  lemma ReplacedEnd(h: Image, h': Image, bp0: int, bs: seq<Block>, k: nat, e: nat, ns: seq<Block>)
    requires Layout(h, bp0, bs)
    requires k <= e <= |bs|
    requires SizeSum(ns) == SizeSum(bs[k..e])
    requires AgreeOutside(h, h', Start(bp0, bs, k) - WSIZE, Start(bp0, bs, e) - WSIZE)
    ensures EpilogueAt(h', Start(bp0, bs[..k] + ns + bs[e..], |bs[..k] + ns + bs[e..]|))
  {
    StartAfter(bp0, bs, k, e, ns, |bs[..k] + ns + bs[e..]|);
    StartMonotone(bp0, bs, e, |bs|);
    var end := Start(bp0, bs, |bs|);
    assert h'.Get(end - WSIZE) == h.Get(end - WSIZE);
  }

  /**
   * Replacing the blocks bs[k..e] by blocks ns of the same total size keeps a
   * layout, when the new blocks are laid out in place and no word outside
   * [header of block k, header of block e) changed.
   */
  lemma Replace(h: Image, h': Image, bp0: int, bs: seq<Block>, k: nat, e: nat, ns: seq<Block>)
    requires Layout(h, bp0, bs)
    requires k <= e <= |bs|
    requires SizeSum(ns) == SizeSum(bs[k..e])
    requires AgreeOutside(h, h', Start(bp0, bs, k) - WSIZE, Start(bp0, bs, e) - WSIZE)
    requires Segment(h', Start(bp0, bs, k), ns)
    ensures Layout(h', bp0, bs[..k] + ns + bs[e..])
  {
    var l := bs[..k] + ns + bs[e..];
    forall i | 0 <= i < |l|
      ensures BlockAt(h', Start(bp0, l, i), l[i])
    {
      ReplacedBlock(h, h', bp0, bs, k, e, ns, i);
    }
    ReplacedEnd(h, h', bp0, bs, k, e, ns);
  }

  /**
   * Growing the region by `size` bytes and writing a free block's header over
   * the old epilogue, its footer, and a new epilogue at the new end appends
   * that free block to the layout.
   */
  lemma Append(h: Image, h': Image, bp0: int, bs: seq<Block>, size: nat)
    requires Layout(h, bp0, bs)
    requires Fits(Block(size, false))
    requires h'.lo == h.lo && h'.hi == h.hi + size
    requires forall p :: h.InRange(p) && p < h.hi - WSIZE ==> h'.InRange(p) && h'.Get(p) == h.Get(p)
    requires h'.InRange(h.hi - WSIZE) && h'.Get(h.hi - WSIZE) == Pack(size, 0)
    requires h'.InRange(h.hi + size - DSIZE) && h'.Get(h.hi + size - DSIZE) == Pack(size, 0)
    requires h'.InRange(h'.hi - WSIZE) && h'.Get(h'.hi - WSIZE) == Pack(0, 1)
    ensures Layout(h', bp0, bs + [Block(size, false)])
  {
    var l := bs + [Block(size, false)];
    forall i | 0 <= i < |l|
      ensures BlockAt(h', Start(bp0, l, i), l[i])
    {
      assert l[..i] == bs[..i];
      if i < |bs| {
        assert BlockAt(h, Start(bp0, bs, i), bs[i]);
        StartOrder(bp0, bs, i, |bs|);
      }
    }
    assert l[..|bs|] == bs[..|bs|];
    StartNext(bp0, l, |bs|);
  }
}
