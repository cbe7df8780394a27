/**
 * The heap consistency checker (mm_checkheap and checkblock) as functions
 * over a heap image. The diagnostics it prints become a list of violations,
 * in the order the checker reports them.
 */
module Checker {
  import opened Tags
  import opened Heap

  /** One diagnostic of the checker. */
  datatype Violation =
    | BadPrologue           // "Bad prologue header"
    | NotAligned(bp: int)   // "Error: %p is not doubleword aligned"
    | TagMismatch(bp: int)  // "Error: header does not match footer"
    | BadEpilogue           // "Bad epilogue header"

  /**
   * The checker's walk from bp reads only words inside the region: every
   * header it reads, and the footer of every block of positive size.
   */
  predicate Walkable(h: Image, bp: int)
    decreases h.hi - bp
  {
    h.InRange(Hdrp(bp)) &&
    (GetSize(h, Hdrp(bp)) > 0 ==>
       h.InRange(Ftrp(h, bp)) && Walkable(h, NextBlkp(h, bp)))
  }

  /** checkblock(bp): alignment of the payload, then header against footer. */
  function CheckBlock(h: Image, bp: int): (vs: seq<Violation>)
    requires h.InRange(Hdrp(bp)) && h.InRange(Ftrp(h, bp))
    ensures forall v :: v in vs <==>
      (v == NotAligned(bp) && bp % DSIZE != 0) ||
      (v == TagMismatch(bp) && h.Get(Hdrp(bp)) != h.Get(Ftrp(h, bp)))
  {
    (if bp % DSIZE != 0 then [NotAligned(bp)] else []) +
    (if h.Get(Hdrp(bp)) != h.Get(Ftrp(h, bp)) then [TagMismatch(bp)] else [])
  }

  /** The payloads the walk visits: every block from bp on up to the first header of size 0. */
  function Walk(h: Image, bp: int): (w: seq<int>)
    requires Walkable(h, bp)
    ensures forall x :: x in w ==>
      bp <= x && h.InRange(Hdrp(x)) && GetSize(h, Hdrp(x)) > 0 && h.InRange(Ftrp(h, x)) && Walkable(h, x)
    ensures w != [] ==> w[0] == bp
    ensures forall t :: 0 <= t < |w| - 1 ==> h.InRange(w[t] - WSIZE) && w[t + 1] == NextBlkp(h, w[t])
    decreases h.hi - bp
  {
    if GetSize(h, Hdrp(bp)) > 0 then [bp] + Walk(h, NextBlkp(h, bp)) else []
  }

  /** Where the walk stops: a header of size 0 at or after bp (WalkStops: the first one). */
  function WalkEnd(h: Image, bp: int): (e: int)
    requires Walkable(h, bp)
    ensures bp <= e && h.InRange(Hdrp(e)) && GetSize(h, Hdrp(e)) == 0
    decreases h.hi - bp
  {
    if GetSize(h, Hdrp(bp)) > 0 then WalkEnd(h, NextBlkp(h, bp)) else bp
  }

  /**
   * The walk stops at the first header of size 0 along the chain from bp:
   * bp itself when its size is 0, and otherwise the block right after the
   * last block the walk visits, every one of which lies below it.
   */
  lemma {:induction false} WalkStops(h: Image, bp: int)
    requires Walkable(h, bp)
    ensures var w, e := Walk(h, bp), WalkEnd(h, bp);
      (w == [] <==> e == bp) &&
      (w != [] ==> h.InRange(Hdrp(w[|w| - 1])) && e == NextBlkp(h, w[|w| - 1])) &&
      forall x :: x in w ==> x < e
    decreases h.hi - bp
  {
    if GetSize(h, Hdrp(bp)) > 0 {
      var next := NextBlkp(h, bp);
      WalkStops(h, next);
      var rest := Walk(h, next);
      assert Walk(h, bp) == [bp] + rest;
      if rest != [] {
        assert Walk(h, bp)[|Walk(h, bp)| - 1] == rest[|rest| - 1];
      }
    }
  }

  /** The checkblock diagnostics of the walk's loop, block after block. */
  function WalkChecks(h: Image, bp: int): (vs: seq<Violation>)
    requires Walkable(h, bp)
    ensures forall v :: v in vs ==> (v.NotAligned? || v.TagMismatch?) && v.bp in Walk(h, bp)
    decreases h.hi - bp
  {
    if GetSize(h, Hdrp(bp)) > 0 then CheckBlock(h, bp) + WalkChecks(h, NextBlkp(h, bp)) else []
  }


  /** The prologue test: size 8 and allocated. */
  function PrologueCheck(h: Image, hp: int): (vs: seq<Violation>)
    requires h.InRange(Hdrp(hp))
    ensures forall v :: v in vs <==> v == BadPrologue && (GetSize(h, Hdrp(hp)) != DSIZE || GetAlloc(h, Hdrp(hp)) != 1)
  {
    if GetSize(h, Hdrp(hp)) != DSIZE || GetAlloc(h, Hdrp(hp)) == 0 then [BadPrologue] else []
  }

  /** The epilogue test on the header the walk stopped at: size 0 and allocated. */
  function EpilogueCheck(h: Image, e: int): (vs: seq<Violation>)
    requires h.InRange(Hdrp(e))
    ensures forall v :: v in vs <==> v == BadEpilogue && (GetSize(h, Hdrp(e)) != 0 || GetAlloc(h, Hdrp(e)) != 1)
  {
    if GetSize(h, Hdrp(e)) != 0 || GetAlloc(h, Hdrp(e)) == 0 then [BadEpilogue] else []
  }

  /** The checker reads only words inside the region, starting from heap_listp. */
  predicate Checkable(h: Image, hp: int) {
    Walkable(h, hp) && h.InRange(Ftrp(h, hp))
  }

  /**
   * mm_checkheap's diagnostics, in order: the prologue test, checkblock of
   * the prologue, checkblock of every block the loop visits (the prologue
   * again first), and the epilogue test where the loop stopped.
   */
  function CheckReport(h: Image, hp: int): (vs: seq<Violation>)
    requires Checkable(h, hp)
    ensures forall v :: v in vs ==>
      v == BadPrologue || v == BadEpilogue || ((v.NotAligned? || v.TagMismatch?) && (v.bp == hp || v.bp in Walk(h, hp)))
  {
    PrologueCheck(h, hp) + CheckBlock(h, hp) + WalkChecks(h, hp) + EpilogueCheck(h, WalkEnd(h, hp))
  }

  /**
   * The state of mm_checkheap's loop at block bp: the diagnostics so far,
   * followed by those of the walk from bp, are the report up to the epilogue test.
   */
  ghost predicate CheckLoop(h: Image, hp: int, bp: int, vs: seq<Violation>)
    requires Checkable(h, hp)
  {
    Walkable(h, bp) && WalkEnd(h, bp) == WalkEnd(h, hp) &&
    vs + WalkChecks(h, bp) == PrologueCheck(h, hp) + CheckBlock(h, hp) + WalkChecks(h, hp)
  }

  /** The loop starts at the prologue with the prologue's two checks done. */
  lemma CheckLoopStart(h: Image, hp: int)
    requires Checkable(h, hp)
    ensures CheckLoop(h, hp, hp, PrologueCheck(h, hp) + CheckBlock(h, hp))
  {
  }

  /** One turn of the loop: checkblock(bp), then on to the next block. */
  lemma CheckLoopStep(h: Image, hp: int, bp: int, vs: seq<Violation>)
    requires Checkable(h, hp) && CheckLoop(h, hp, bp, vs) && GetSize(h, Hdrp(bp)) > 0
    ensures h.InRange(Hdrp(bp)) && h.InRange(Ftrp(h, bp)) && 0 <= h.hi - NextBlkp(h, bp) < h.hi - bp
    ensures CheckLoop(h, hp, NextBlkp(h, bp), vs + CheckBlock(h, bp))
  {
    var next := NextBlkp(h, bp);
    assert WalkChecks(h, bp) == CheckBlock(h, bp) + WalkChecks(h, next);
    assert vs + WalkChecks(h, bp) == (vs + CheckBlock(h, bp)) + WalkChecks(h, next);
  }

  /** Where the loop stops, the epilogue test completes the report. */
  lemma CheckLoopExit(h: Image, hp: int, bp: int, vs: seq<Violation>)
    requires Checkable(h, hp) && CheckLoop(h, hp, bp, vs) && GetSize(h, Hdrp(bp)) == 0
    ensures vs + EpilogueCheck(h, bp) == CheckReport(h, hp)
  {
    assert WalkChecks(h, bp) == [] && WalkEnd(h, bp) == bp;
    assert vs == PrologueCheck(h, hp) + CheckBlock(h, hp) + WalkChecks(h, hp);
  }

  /**
   * mm_checkheap's steps over the image h: the prologue test and checkblock
   * of the prologue, the loop that runs checkblock on every block up to the
   * first header of size 0, and the epilogue test there.
   */
  method RunCheck(h: Image, hp: int) returns (vs: seq<Violation>)
    requires Checkable(h, hp)
    ensures vs == CheckReport(h, hp)
  {
    vs := PrologueCheck(h, hp) + CheckBlock(h, hp);
    var bp := hp;
    CheckLoopStart(h, hp);
    while GetSize(h, Hdrp(bp)) > 0
      invariant CheckLoop(h, hp, bp, vs)
      decreases h.hi - bp
    {
      CheckLoopStep(h, hp, bp, vs);
      vs := vs + CheckBlock(h, bp);
      bp := NextBlkp(h, bp);
    }
    CheckLoopExit(h, hp, bp, vs);
    vs := vs + EpilogueCheck(h, bp);
  }

  // ---------------------------------------------------------------------
  // What the report says
  // ---------------------------------------------------------------------

  /** The loop reports a misaligned payload exactly for the misaligned blocks it visits. */
  lemma {:induction false} WalkChecksAligned(h: Image, bp: int, x: int)
    requires Walkable(h, bp)
    ensures NotAligned(x) in WalkChecks(h, bp) <==> x in Walk(h, bp) && x % DSIZE != 0
    decreases h.hi - bp
  {
    if GetSize(h, Hdrp(bp)) > 0 {
      WalkChecksAligned(h, NextBlkp(h, bp), x);
    }
  }

  /** The loop reports a tag mismatch exactly for the visited blocks whose footer differs from the header. */
  lemma {:induction false} WalkChecksTags(h: Image, bp: int, x: int)
    requires Walkable(h, bp)
    ensures TagMismatch(x) in WalkChecks(h, bp) <==>
      x in Walk(h, bp) && h.Get(Hdrp(x)) != h.Get(Ftrp(h, x))
    decreases h.hi - bp
  {
    if GetSize(h, Hdrp(bp)) > 0 {
      WalkChecksTags(h, NextBlkp(h, bp), x);
    }
  }

  /** "Bad prologue header" is reported exactly when the prologue is not an allocated block of size 8. */
  lemma ReportPrologue(h: Image, hp: int)
    requires Checkable(h, hp)
    ensures BadPrologue in CheckReport(h, hp) <==>
      GetSize(h, Hdrp(hp)) != DSIZE || GetAlloc(h, Hdrp(hp)) == 0
  {
  }

  /**
   * "Bad epilogue header" is reported exactly when the header the walk stops
   * at is not allocated; its size test can never fire, since the walk stops
   * only at a header of size 0.
   */
  lemma ReportEpilogue(h: Image, hp: int)
    requires Checkable(h, hp)
    ensures BadEpilogue in CheckReport(h, hp) <==> GetAlloc(h, Hdrp(WalkEnd(h, hp))) == 0
  {
  }

  // ---------------------------------------------------------------------
  // The checker on a well-formed heap
  // ---------------------------------------------------------------------

  /** Block i of a layout and the walk from it. */
  lemma LayoutStep(h: Image, bp0: int, bs: seq<Block>, i: nat)
    requires Layout(h, bp0, bs)
    requires i < |bs|
    ensures h.InRange(Hdrp(Start(bp0, bs, i))) && GetSize(h, Hdrp(Start(bp0, bs, i))) > 0
    ensures h.InRange(Ftrp(h, Start(bp0, bs, i)))
    ensures NextBlkp(h, Start(bp0, bs, i)) == Start(bp0, bs, i + 1)
    ensures CheckBlock(h, Start(bp0, bs, i)) == []
  {
    var bp := Start(bp0, bs, i);
    LayoutNext(h, bp0, bs, i);
    LayoutAligned(h, bp0, bs, i);
    assert BlockAt(h, bp, bs[i]);
  }

  /**
   * From block i of a layout on, the walk reads only words of the region,
   * finds nothing wrong, and stops at the epilogue, which is the end of the
   * region.
   */
  lemma {:induction false} LayoutWalkEnd(h: Image, bp0: int, bs: seq<Block>, i: nat)
    requires Layout(h, bp0, bs)
    requires i <= |bs|
    ensures Walkable(h, Start(bp0, bs, i))
    ensures WalkEnd(h, Start(bp0, bs, i)) == Start(bp0, bs, |bs|) == h.hi
    ensures WalkChecks(h, Start(bp0, bs, i)) == []
    decreases |bs| - i
  {
    if i == |bs| {
      LayoutEnd(h, bp0, bs);
    } else {
      LayoutStep(h, bp0, bs, i);
      LayoutWalkEnd(h, bp0, bs, i + 1);
    }
  }

  /** From block i of a layout on, the walk visits exactly the remaining blocks, in address order. */
  lemma {:induction false} LayoutWalkVisits(h: Image, bp0: int, bs: seq<Block>, i: nat)
    requires Layout(h, bp0, bs)
    requires i <= |bs|
    ensures Walkable(h, Start(bp0, bs, i))
    ensures |Walk(h, Start(bp0, bs, i))| == |bs| - i
    ensures forall t :: i <= t < |bs| ==> Walk(h, Start(bp0, bs, i))[t - i] == Start(bp0, bs, t)
    decreases |bs| - i
  {
    LayoutWalkEnd(h, bp0, bs, i);
    if i == |bs| {
      LayoutEnd(h, bp0, bs);
    } else {
      LayoutStep(h, bp0, bs, i);
      LayoutWalkVisits(h, bp0, bs, i + 1);
      var bp := Start(bp0, bs, i);
      var rest := Walk(h, Start(bp0, bs, i + 1));
      assert Walk(h, bp) == [bp] + rest;
      forall t | i < t < |bs|
        ensures Walk(h, bp)[t - i] == Start(bp0, bs, t)
      {
        assert Walk(h, bp)[t - i] == rest[t - (i + 1)];
      }
    }
  }

  /**
   * On a heap laid out as mm_init and extend_heap leave it, the checker
   * reads only words of the region, stops at the epilogue, which is the end
   * of the region, and reports nothing.
   */
  lemma WellFormedPasses(h: Image, hp: int, bs: seq<Block>)
    requires WellFormed(h, hp, bs)
    ensures Checkable(h, hp)
    ensures WalkEnd(h, hp) == h.hi
    ensures CheckReport(h, hp) == []
  {
    assert Start(hp, bs, 0) == hp by {
      assert bs[..0] == [];
    }
    LayoutWalkEnd(h, hp, bs, 0);
    LayoutStep(h, hp, bs, 0);
    LayoutNext(h, hp, bs, 0);
    assert PrologueCheck(h, hp) == [];
    LayoutEnd(h, hp, bs);
    assert EpilogueCheck(h, h.hi) == [];
  }

  /** On a well-formed heap the checker's loop visits every block, prologue first, in address order. */
  lemma WellFormedWalk(h: Image, hp: int, bs: seq<Block>)
    requires WellFormed(h, hp, bs)
    ensures Walkable(h, hp)
    ensures |Walk(h, hp)| == |bs| && forall t :: 0 <= t < |bs| ==> Walk(h, hp)[t] == Start(hp, bs, t)
  {
    assert Start(hp, bs, 0) == hp by {
      assert bs[..0] == [];
    }
    LayoutWalkVisits(h, hp, bs, 0);
  }
}
